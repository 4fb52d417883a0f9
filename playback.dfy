/**
 * Choosing the HLS manifest address from the video's metadata: the first
 * playback entry of the HLS MIME type is examined, and the manifest address
 * is the value of the `playbackurl` parameter of its query string.
 */
module Playback {
  import opened Types
  import opened Strings

  datatype PlaybackEntry = PlaybackEntry(mimeType: string, playbackUrl: string)

  const HlsMimeType := "application/vnd.apple.mpegurl"
  const ManifestKey := "playbackurl"

  /**
   * The query component of `urllib.parse.urlparse(url)` (section 3.4 of
   * RFC 3986): the text after the first `?` of what precedes the first `#`,
   * or empty when there is no `?` there.
   */
  function QueryOf(url: string): (q: string)
    ensures '#' !in q
    ensures '?' !in SplitOnce(url, '#').0 ==> q == ""
    ensures '?' in SplitOnce(url, '#').0 ==>
              exists head :: '?' !in head && SplitOnce(url, '#').0 == head + "?" + q
  {
    var beforeFragment := SplitOnce(url, '#').0;
    var query := SplitOnce(beforeFragment, '?').1;
    if query.Some? then query.value else ""
  }

  /** An address `<head>?<query>` with an optional `#fragment` has that query. */
  lemma QueryOfAddress(head: string, query: string, tail: string)
    requires '?' !in head && '#' !in head && '#' !in query
    requires tail == [] || tail[0] == '#'
    ensures QueryOf(head + "?" + query + tail) == query
  {
    var url := head + "?" + query + tail;
    var beforeFragment := head + "?" + query;
    if tail == [] {
      assert url == beforeFragment;
    } else {
      IndexOfAfter(beforeFragment, '#', tail[1..]);
      assert url == beforeFragment + ['#'] + tail[1..];
      assert url[..|beforeFragment|] == beforeFragment;
    }
    IndexOfAfter(head, '?', query);
    assert beforeFragment == head + ['?'] + query;
    assert beforeFragment[|head| + 1..] == query;
  }

  /** `qpart.split("=", maxsplit=1)[0]`: the key of a query part. */
  function Key(part: string): string {
    SplitOnce(part, '=').0
  }

  /** `parts[1]` of that split: the value after the first `=`; IndexError when there is no `=`. */
  function Value(part: string): (r: Result<string>)
    ensures r.Err? <==> '=' !in part
    ensures r.Ok? ==> part == Key(part) + "=" + r.value
  {
    match SplitOnce(part, '=').1
    case None => Err(MalformedQueryPart)
    case Some(v) => Ok(v)
  }

  /** `parts[i]` is the first part keyed exactly `key`. */
  predicate FirstKeyed(parts: seq<string>, key: string, i: int) {
    0 <= i < |parts| && Key(parts[i]) == key &&
    forall j :: 0 <= j < i ==> Key(parts[j]) != key
  }

  /** There is at most one first keyed part. */
  lemma FirstKeyedUnique(parts: seq<string>, key: string, i: int, f: int)
    requires FirstKeyed(parts, key, i) && FirstKeyed(parts, key, f)
    ensures i == f
  {
  }

  /**
   * `r` is what the lookup of `key` among the `&`-separated `parts` of a
   * query yields: the value of the first part with that key, or the empty
   * default when no part has it.
   */
  predicate ParamOutcome(parts: seq<string>, key: string, r: Result<string>) {
    ((forall j :: 0 <= j < |parts| ==> Key(parts[j]) != key) ==> r == Ok("")) &&
    (forall i :: 0 <= i < |parts| && FirstKeyed(parts, key, i) ==> r == Value(parts[i]))
  }

  /** A sequence with a keyed part has a first one. */
  lemma {:induction false} FirstKeyedExists(parts: seq<string>, key: string, i: int)
    requires 0 <= i < |parts| && Key(parts[i]) == key
    ensures exists f :: FirstKeyed(parts, key, f)
    decreases i
  {
    if !FirstKeyed(parts, key, i) {
      var j :| 0 <= j < i && Key(parts[j]) == key;
      FirstKeyedExists(parts, key, j);
    }
  }

  /** The lookup has exactly one outcome. */
  lemma ParamOutcomeUnique(parts: seq<string>, key: string)
    ensures forall r1, r2 :: ParamOutcome(parts, key, r1) && ParamOutcome(parts, key, r2) ==> r1 == r2
  {
    if i :| 0 <= i < |parts| && Key(parts[i]) == key {
      FirstKeyedExists(parts, key, i);
    }
  }

  /** The value of the first keyed part is the outcome of the lookup. */
  lemma ParamOutcomeAt(parts: seq<string>, key: string, i: int)
    requires FirstKeyed(parts, key, i)
    ensures ParamOutcome(parts, key, Value(parts[i]))
  {
    forall f | 0 <= f < |parts| && FirstKeyed(parts, key, f)
      ensures f == i
    {
      FirstKeyedUnique(parts, key, i, f);
    }
  }

  /**
   * The inner loop over the `&`-separated parts of the query: stop at the
   * first part keyed `key` (always `playbackurl` here) and take its value.
   */
  method ManifestParam(parts: seq<string>, key: string) returns (r: Result<string>)
    ensures ParamOutcome(parts, key, r)
  {
    var i := 0;
    while i < |parts|
      invariant 0 <= i <= |parts|
      invariant forall j :: 0 <= j < i ==> Key(parts[j]) != key
    {
      var kv := SplitOnce(parts[i], '=');
      if kv.0 == key {
        r := if kv.1.Some? then Ok(kv.1.value) else Err(MalformedQueryPart);
        ParamOutcomeAt(parts, key, i);
        return;
      }
      i := i + 1;
    }
    r := Ok("");
  }

  /** `entries[i]` is the first entry of the HLS MIME type. */
  predicate FirstHls(entries: seq<PlaybackEntry>, i: int) {
    0 <= i < |entries| && entries[i].mimeType == HlsMimeType &&
    forall j :: 0 <= j < i ==> entries[j].mimeType != HlsMimeType
  }

  /**
   * The outer loop: only the first HLS entry is examined; without one the
   * manifest address stays empty.
   */
  method HlsManifestUrl(entries: seq<PlaybackEntry>) returns (r: Result<string>)
    ensures (forall j :: 0 <= j < |entries| ==> entries[j].mimeType != HlsMimeType) ==> r == Ok("")
    ensures forall i :: FirstHls(entries, i) ==> ParamOutcome(Split(QueryOf(entries[i].playbackUrl), '&'), ManifestKey, r)
  {
    var i := 0;
    while i < |entries|
      invariant 0 <= i <= |entries|
      invariant forall j :: 0 <= j < i ==> entries[j].mimeType != HlsMimeType
    {
      if entries[i].mimeType == HlsMimeType {
        r := ManifestParam(Split(QueryOf(entries[i].playbackUrl), '&'), ManifestKey);
        FirstHlsOnly(entries, i);
        return;
      }
      i := i + 1;
    }
    r := Ok("");
  }

  /** Once `entries[i]` is known to be the first HLS entry, no other index is. */
  lemma FirstHlsOnly(entries: seq<PlaybackEntry>, i: int)
    requires FirstHls(entries, i)
    ensures forall f :: FirstHls(entries, f) ==> f == i
  {
  }
}
