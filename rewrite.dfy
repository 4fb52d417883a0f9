/**
 * Turning a media playlist (RFC 8216) into the two files the external
 * tools read: the fetch-list, whose segment references are absolute remote
 * addresses for the downloader, and the merge-list, whose key and segment
 * references are local paths for the remuxer. Both are plain `str.replace`
 * substitutions on the playlist text.
 */
module Rewrite {
  import opened Types
  import opened Strings
  import opened Variants

  /** The path prefix every segment reference of the media playlists starts with. */
  const SegmentToken := "Fragments"

  /**
   * `link[0:link.rindex("/") + 1]`: the link up to and including its last
   * `/`; `rindex` raises when there is none.
   */
  function BaseUrl(link: string): (r: Result<string>)
    ensures r.Err? <==> '/' !in link
    ensures r.Err? ==> r.error == SlashMissing
    ensures r.Ok? ==> 0 < |r.value| <= |link| && r.value == link[..|r.value|] &&
                      r.value[|r.value| - 1] == '/' && '/' !in link[|r.value|..]
  {
    match LastIndexOf(link, '/')
    case None => Err(SlashMissing)
    case Some(k) => Ok(link[..k + 1])
  }

  /** `basePlaylistsUrl + playlist['uri']`: the address of a media playlist. */
  function PlaylistLink(base: string, playlist: Playlist): string {
    base + playlist.uri
  }

  /**
   * A media playlist whose URI is a bare file name lives next to the master
   * playlist: its base is the master playlist's base.
   */
  lemma BaseUrlOfPlaylistLink(master: string, playlist: Playlist)
    requires BaseUrl(master).Ok? && '/' !in playlist.uri
    ensures BaseUrl(PlaylistLink(BaseUrl(master).value, playlist)) == BaseUrl(master)
  {
    var base := BaseUrl(master).value;
    var link := base + playlist.uri;
    assert link == base[..|base| - 1] + ['/'] + playlist.uri;
    LastIndexOfBefore(base[..|base| - 1], '/', playlist.uri);
    assert link[..|base|] == base;
  }

  /** The fetch-list: every `Fragments` becomes `base + "Fragments"`. */
  function FetchList(body: string, base: string): string {
    ReplaceAll(body, SegmentToken, base + SegmentToken)
  }

  /**
   * The merge-list: the remote key URI becomes the local key path first,
   * then every `Fragments` becomes the local segment directory.
   */
  function MergeList(body: string, keyUri: string, keyPath: string, segmentDir: string): string {
    ReplaceAll(ReplaceAll(body, keyUri, keyPath), SegmentToken, segmentDir)
  }

  /**
   * The key path written into the merge-list: on Windows the joined local
   * path with every `\` turned into `/`, elsewhere its absolute form (which
   * comes from the operating system and is a parameter here).
   */
  function KeyReplacement(localKeyPath: string, onWindows: bool, absoluteKeyPath: string): string {
    if onWindows then ReplaceAll(localKeyPath, "\\", "/") else absoluteKeyPath
  }

  /** The lines of a playlist. */
  function Lines(text: string): (ls: seq<string>)
    ensures |ls| >= 1
  {
    Split(text, '\n')
  }

  /**
   * The fetch-list rewrites the playlist line by line: same number of lines,
   * same order, each line the fetch-list of the original line.
   */
  lemma FetchListByLine(body: string, base: string)
    requires '\n' !in base
    ensures |Lines(FetchList(body, base))| == |Lines(body)|
    ensures forall i :: 0 <= i < |Lines(body)| ==>
              Lines(FetchList(body, base))[i] == FetchList(Lines(body)[i], base)
  {
    assert '\n' !in SegmentToken;
    SplitReplaceAll(body, '\n', SegmentToken, base + SegmentToken);
  }

  /**
   * The merge-list rewrites the playlist line by line as well, when the key
   * URI, the key path and the segment directory hold no line break.
   */
  lemma MergeListByLine(body: string, keyUri: string, keyPath: string, segmentDir: string)
    requires |keyUri| > 0
    requires '\n' !in keyUri && '\n' !in keyPath && '\n' !in segmentDir
    ensures |Lines(MergeList(body, keyUri, keyPath, segmentDir))| == |Lines(body)|
    ensures forall i :: 0 <= i < |Lines(body)| ==>
              Lines(MergeList(body, keyUri, keyPath, segmentDir))[i] ==
              MergeList(Lines(body)[i], keyUri, keyPath, segmentDir)
  {
    assert '\n' !in SegmentToken;
    var keyed := ReplaceAll(body, keyUri, keyPath);
    SplitReplaceAll(body, '\n', keyUri, keyPath);
    SplitReplaceAll(keyed, '\n', SegmentToken, segmentDir);
  }

  /** A playlist without segment references is its own fetch-list. */
  lemma FetchListWithoutSegments(body: string, base: string)
    requires !Occurs(body, SegmentToken)
    ensures FetchList(body, base) == body
  {
    ReplaceAllNoMatch(body, SegmentToken, base + SegmentToken);
  }

  /** A playlist that mentions neither the key URI nor a segment is its own merge-list. */
  lemma MergeListWithoutReferences(body: string, keyUri: string, keyPath: string, segmentDir: string)
    requires |keyUri| > 0 && !Occurs(body, keyUri) && !Occurs(body, SegmentToken)
    ensures MergeList(body, keyUri, keyPath, segmentDir) == body
  {
    ReplaceAllNoMatch(body, keyUri, keyPath);
    ReplaceAllNoMatch(body, SegmentToken, segmentDir);
  }

  /** `Fragments` at the start of `SegmentToken + rest` is its first occurrence. */
  lemma SegmentTokenFirst(rest: string)
    ensures FirstAt(SegmentToken + rest, SegmentToken, 0)
  {
    assert (SegmentToken + rest)[..|SegmentToken|] == SegmentToken;
  }

  /** A segment line of the fetch-list is the remote base followed by the original line. */
  lemma FetchListSegmentLine(rest: string, base: string)
    requires !Occurs(rest, SegmentToken)
    ensures FetchList(SegmentToken + rest, base) == base + SegmentToken + rest
  {
    var line := SegmentToken + rest;
    SegmentTokenFirst(rest);
    ReplaceAllFirst(line, SegmentToken, base + SegmentToken, 0);
    assert line[|SegmentToken|..] == rest;
    ReplaceAllNoMatch(rest, SegmentToken, base + SegmentToken);
  }

  /** A segment line of the merge-list is the local segment directory followed by the rest of the line. */
  lemma MergeListSegmentLine(rest: string, keyUri: string, keyPath: string, segmentDir: string)
    requires |keyUri| > 0 && !Occurs(SegmentToken + rest, keyUri) && !Occurs(rest, SegmentToken)
    ensures MergeList(SegmentToken + rest, keyUri, keyPath, segmentDir) == segmentDir + rest
  {
    var line := SegmentToken + rest;
    ReplaceAllNoMatch(line, keyUri, keyPath);
    SegmentTokenFirst(rest);
    ReplaceAllFirst(line, SegmentToken, segmentDir, 0);
    assert line[|SegmentToken|..] == rest;
    ReplaceAllNoMatch(rest, SegmentToken, segmentDir);
  }

  /**
   * The key line `pre + keyUri + post` of the merge-list, as written: the key
   * URI is replaced by the key path, and then every `Fragments` of the
   * result, the key path included, is rewritten too.
   */
  lemma MergeListKeyLine(pre: string, keyUri: string, post: string, keyPath: string, segmentDir: string)
    requires |keyUri| > 0 && FirstAt(pre + keyUri + post, keyUri, |pre|) && !Occurs(post, keyUri)
    ensures MergeList(pre + keyUri + post, keyUri, keyPath, segmentDir) ==
            ReplaceAll(pre + keyPath + post, SegmentToken, segmentDir)
  {
    var line := pre + keyUri + post;
    ReplaceAllFirst(line, keyUri, keyPath, |pre|);
    assert line[..|pre|] == pre;
    assert line[|pre| + |keyUri|..] == post;
    ReplaceAllNoMatch(post, keyUri, keyPath);
  }

  /**
   * So the key line points at the key path exactly when nothing on it
   * spells `Fragments` after the key substitution.
   */
  lemma MergeListKeyLineIntact(pre: string, keyUri: string, post: string, keyPath: string, segmentDir: string)
    requires |keyUri| > 0 && FirstAt(pre + keyUri + post, keyUri, |pre|) && !Occurs(post, keyUri)
    requires !Occurs(pre + keyPath + post, SegmentToken)
    ensures MergeList(pre + keyUri + post, keyUri, keyPath, segmentDir) == pre + keyPath + post
  {
    MergeListKeyLine(pre, keyUri, post, keyPath, segmentDir);
    ReplaceAllNoMatch(pre + keyPath + post, SegmentToken, segmentDir);
  }

  /**
   * ... and when the local key path itself contains `Fragments` (any output
   * directory whose path spells it), the second substitution rewrites the
   * key path too: the key line no longer names the downloaded key file.
   */
  lemma MergeListRewritesKeyPath(pre: string, keyUri: string, post: string, a: string, b: string, segmentDir: string)
    requires |keyUri| > 0 && FirstAt(pre + keyUri + post, keyUri, |pre|) && !Occurs(post, keyUri)
    requires FirstAt(pre + a + SegmentToken + b + post, SegmentToken, |pre| + |a|)
    requires |segmentDir| > 0 && segmentDir[0] == '/'
    ensures MergeList(pre + keyUri + post, keyUri, a + SegmentToken + b, segmentDir) !=
            pre + a + SegmentToken + b + post
  {
    var keyPath := a + SegmentToken + b;
    var keyed := pre + a + SegmentToken + b + post;
    assert pre + keyPath + post == keyed;
    MergeListKeyLine(pre, keyUri, post, keyPath, segmentDir);
    ReplaceAllFirst(keyed, SegmentToken, segmentDir, |pre| + |a|);
    var merged := MergeList(pre + keyUri + post, keyUri, keyPath, segmentDir);
    assert merged[|pre| + |a|] == '/';
    assert keyed[|pre| + |a|] == 'F';
  }

  /**
   * The key substitution alone is not idempotent: a key path that contains
   * the key URI is rewritten again by a second pass.
   */
  lemma KeySubstitutionNotIdempotent()
    ensures ReplaceAll(ReplaceAll("k", "k", "/k"), "k", "/k") != ReplaceAll("k", "k", "/k")
  {
    var once := ReplaceAll("k", "k", "/k");
    assert "k"[..1] == "k";
    assert once == "/k";
    assert once[..1] != "k";
    assert once[1..] == "k";
    assert |ReplaceAll(once, "k", "/k")| == 3;
  }

  /**
   * The merge-list with the two substitutions in the other order: segment
   * references first, then the key URI, so that the key path is written
   * last and left as it is.
   */
  function MergeListSegmentsFirst(body: string, keyUri: string, keyPath: string, segmentDir: string): string {
    ReplaceAll(ReplaceAll(body, SegmentToken, segmentDir), keyUri, keyPath)
  }

  /** Its key line names the key path whatever the key path contains. */
  lemma SegmentsFirstKeyLine(pre: string, keyUri: string, post: string, keyPath: string, segmentDir: string)
    requires |keyUri| > 0 && FirstAt(pre + keyUri + post, keyUri, |pre|) && !Occurs(post, keyUri)
    requires !Occurs(pre + keyUri + post, SegmentToken)
    ensures MergeListSegmentsFirst(pre + keyUri + post, keyUri, keyPath, segmentDir) == pre + keyPath + post
  {
    var line := pre + keyUri + post;
    ReplaceAllNoMatch(line, SegmentToken, segmentDir);
    ReplaceAllFirst(line, keyUri, keyPath, |pre|);
    assert line[..|pre|] == pre;
    assert line[|pre| + |keyUri|..] == post;
    ReplaceAllNoMatch(post, keyUri, keyPath);
  }

  /** Its segment lines are those of the merge-list as written. */
  lemma SegmentsFirstSegmentLine(rest: string, keyUri: string, keyPath: string, segmentDir: string)
    requires |keyUri| > 0 && !Occurs(segmentDir + rest, keyUri) && !Occurs(rest, SegmentToken)
    ensures MergeListSegmentsFirst(SegmentToken + rest, keyUri, keyPath, segmentDir) == segmentDir + rest
  {
    var line := SegmentToken + rest;
    SegmentTokenFirst(rest);
    ReplaceAllFirst(line, SegmentToken, segmentDir, 0);
    assert line[|SegmentToken|..] == rest;
    ReplaceAllNoMatch(rest, SegmentToken, segmentDir);
    ReplaceAllNoMatch(segmentDir + rest, keyUri, keyPath);
  }

  /** It too rewrites the playlist line by line. */
  lemma SegmentsFirstByLine(body: string, keyUri: string, keyPath: string, segmentDir: string)
    requires |keyUri| > 0
    requires '\n' !in keyUri && '\n' !in keyPath && '\n' !in segmentDir
    ensures |Lines(MergeListSegmentsFirst(body, keyUri, keyPath, segmentDir))| == |Lines(body)|
    ensures forall i :: 0 <= i < |Lines(body)| ==>
              Lines(MergeListSegmentsFirst(body, keyUri, keyPath, segmentDir))[i] ==
              MergeListSegmentsFirst(Lines(body)[i], keyUri, keyPath, segmentDir)
  {
    assert '\n' !in SegmentToken;
    var local := ReplaceAll(body, SegmentToken, segmentDir);
    SplitReplaceAll(body, '\n', SegmentToken, segmentDir);
    SplitReplaceAll(local, '\n', keyUri, keyPath);
  }

  /** On Windows the key path keeps its length and every `\` becomes `/`, nothing else changes. */
  lemma WindowsKeyReplacement(localKeyPath: string, absoluteKeyPath: string)
    ensures |KeyReplacement(localKeyPath, true, absoluteKeyPath)| == |localKeyPath|
    ensures '\\' !in KeyReplacement(localKeyPath, true, absoluteKeyPath)
    ensures forall i :: 0 <= i < |localKeyPath| ==>
              KeyReplacement(localKeyPath, true, absoluteKeyPath)[i] ==
              if localKeyPath[i] == '\\' then '/' else localKeyPath[i]
  {
    ReplaceAllChar(localKeyPath, "\\", "/");
  }
}
