/**
 * The two slices `downloadVideo` takes of its inputs before anything is
 * fetched: the video identifier that names the workspace directory, and
 * the JSON document inside the HTML page the metadata endpoint returns.
 */
module Extract {
  import opened Types
  import opened Strings

  const VideoToken := "/video/"
  const IdLength := 36

  function Min(a: int, b: int): int {
    if a <= b then a else b
  }

  /** `v` is the at most 36 characters that follow the token occurring at `i`. */
  predicate IdAt(url: string, i: nat, v: string) {
    var start := i + |VideoToken|;
    start <= |url| && v == url[start..start + Min(IdLength, |url| - start)]
  }

  /**
   * `videoUrl[videoUrl.index("/video/") + 7:][0:36]`: at most 36 characters
   * right after the first `/video/`; `index` raises when the token is absent.
   */
  function VideoId(url: string): (r: Result<string>)
    ensures r.Err? <==> !Occurs(url, VideoToken)
    ensures r.Err? ==> r.error == VideoTokenMissing
    ensures r.Ok? ==> exists i: nat :: FirstAt(url, VideoToken, i) && IdAt(url, i, r.value)
  {
    match FindFrom(url, VideoToken, 0)
    case None => Err(VideoTokenMissing)
    case Some(i) =>
      var rest := url[i + |VideoToken|..];
      var id := rest[..Min(IdLength, |rest|)];
      assert FirstAt(url, VideoToken, i) && IdAt(url, i, id);
      Ok(id)
  }

  /**
   * A page address of the usual shape `<prefix>/video/<id><rest>`, whose
   * prefix does not already contain the token, yields the 36-character id
   * (or the whole tail, when the address ends before 36 characters).
   */
  lemma {:induction false} VideoIdOfAddress(prefix: string, id: string, rest: string)
    requires |id| == IdLength || (rest == [] && |id| <= IdLength)
    requires forall j: nat :: j < |prefix| ==> !OccursAt(prefix + VideoToken + id + rest, VideoToken, j)
    ensures VideoId(prefix + VideoToken + id + rest) == Ok(id)
  {
    var url := prefix + VideoToken + id + rest;
    assert url[|prefix|..|prefix| + |VideoToken|] == VideoToken;
    assert OccursAt(url, VideoToken, |prefix|);
    var r := VideoId(url);
    var i: nat :| FirstAt(url, VideoToken, i) && IdAt(url, i, r.value);
    assert i == |prefix|;
    assert url[|prefix| + |VideoToken|..][..|id|] == id;
  }

  /** `page[i]` is the first `{` of the page. */
  predicate FirstOpen(page: string, i: int) {
    0 <= i < |page| && page[i] == '{' && '{' !in page[..i]
  }

  /** `page[j]` is the last `}` of the page. */
  predicate LastClose(page: string, j: int) {
    0 <= j < |page| && page[j] == '}' && '}' !in page[j + 1..]
  }

  /** Python's `page[i:j + 1]` for two valid indices: empty when `j` comes before `i`. */
  function Between(page: string, i: nat, j: nat): string
    requires i < |page| && j < |page|
  {
    if i <= j then page[i..j + 1] else ""
  }

  /**
   * `response[response.index('{'):response.rindex('}') + 1]`: from the first
   * `{` through the last `}`, empty when the last `}` comes before the first
   * `{`; either `index` or `rindex` raises when its brace is absent.
   */
  function JsonText(page: string): (r: Result<string>)
    ensures r.Err? <==> '{' !in page || '}' !in page
    ensures r.Err? ==> r.error == BraceMissing
    ensures r.Ok? ==> exists i: nat, j: nat :: FirstOpen(page, i) && LastClose(page, j) && r.value == Between(page, i, j)
  {
    match (IndexOf(page, '{'), LastIndexOf(page, '}'))
    case (Some(i), Some(j)) =>
      assert FirstOpen(page, i) && LastClose(page, j);
      Ok(Between(page, i, j))
    case _ => Err(BraceMissing)
  }

  /**
   * A JSON object wrapped in markup that has no `{` before it and no `}`
   * after it is isolated exactly.
   */
  lemma JsonTextOfWrapped(before: string, body: string, after: string)
    requires '{' !in before && '}' !in after
    ensures JsonText(before + "{" + body + "}" + after) == Ok("{" + body + "}")
  {
    WrappedPage(before, body, after, before + "{" + body + "}" + after);
  }

  lemma WrappedPage(before: string, body: string, after: string, page: string)
    requires '{' !in before && '}' !in after
    requires page == before + "{" + body + "}" + after
    ensures JsonText(page) == Ok("{" + body + "}")
  {
    var head := before + "{" + body;
    WrappedShapes(before, body, after, page);
    FirstOpenAt(before, body + "}" + after, page);
    LastCloseAt(head, after, page);
    JsonTextAt(page, |before|, |head|);
  }

  lemma WrappedShapes(before: string, body: string, after: string, page: string)
    requires page == before + "{" + body + "}" + after
    ensures page == (before + "{" + body) + ['}'] + after
    ensures page == before + ['{'] + (body + "}" + after)
    ensures page[|before|..|before + "{" + body| + 1] == "{" + body + "}"
  {
  }

  lemma FirstOpenAt(a: string, b: string, page: string)
    requires '{' !in a && page == a + ['{'] + b
    ensures IndexOf(page, '{') == Some(|a|)
  {
    IndexOfAfter(a, '{', b);
  }

  lemma LastCloseAt(a: string, b: string, page: string)
    requires '}' !in b && page == a + ['}'] + b
    ensures LastIndexOf(page, '}') == Some(|a|)
  {
    LastIndexOfBefore(a, '}', b);
  }

  lemma JsonTextAt(page: string, i: nat, j: nat)
    requires IndexOf(page, '{') == Some(i) && LastIndexOf(page, '}') == Some(j) && i <= j
    ensures JsonText(page) == Ok(page[i..j + 1])
  {
  }
}
