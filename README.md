# PyDestreamer download rules in Dafny

PyDestreamer downloads a Microsoft Stream video. It signs in through a
headless browser, then for each video URL:

- reads the video's metadata,
- picks the HLS master playlist,
- lets the user choose a video rendition,
- rewrites the media playlists so that aria2c can fetch the segments and
  ffmpeg can merge them,
- and finally keeps or removes its temporary workspace.

This project models the deterministic rules inside that pipeline and proves
what they promise. The browser, the network, the prompt and the external
tools are left out.

- `types.dfy` (`Types`): `Option`, `Result` and one `Error` per Python
  exception the rules can raise.
- `strings.dfy` (`Strings`): the Python string operations the rules are built
  from. This covers `str.find`/`index`/`rindex`, `str.split` with and without
  `maxsplit=1`, and `str.replace`. `Join` is there only as the inverse of `Split`. `ReplaceAll` works left to
  right, replaces non-overlapping occurrences, and handles the empty pattern.
  Its laws are proved once here.
- `decimal.dfy` (`Decimal`): `int(text)` for digit strings and `str(n)`, and
  the fact that reading back a printed number gives the number.
- `extract.dfy` (`Extract`): the video id taken from the page address, and
  the JSON text isolated from the metadata page.
- `playback.dfy` (`Playback`): choosing the HLS manifest address. Only the
  first entry of the HLS MIME type is examined. The address is the value of
  the first `playbackurl` parameter of that entry's query string.
- `variants.dfy` (`Variants`): the partition of the master playlist into
  video renditions (with their menu labels) and the audio rendition, plus the
  choice of rendition, either from the command line or from a validated
  prompt answer.
- `validator.dfy` (`Validator`): `NumberValidator.validate`, including the
  scan that puts the cursor on the first non-digit.
- `rewrite.dfy` (`Rewrite`): the base URL of a playlist link, the fetch-list,
  the merge-list and the Windows key-path normalisation.
- `download.dfy` (`Download`): the clamp on the connection count.
- `workspace.dfy` (`Workspace`): workspace preparation, the output-file name,
  and the final success and cleanup decision. The filesystem is a `Disk`
  object whose `paths` set the methods update in place.
- `cookies.dfy` (`Cookies`): the cookie-jar scan and the `Cookie` header
  built from the two authentication cookies.

## Model

| member | source | states |
|---|---|---|
| Extract.VideoId | PyDestreamer.py:149 | Fails with `VideoTokenMissing` exactly when `/video/` does not occur. Otherwise the id is the at most 36 characters that start right after the first `/video/` (fewer when the address ends sooner). |
| Extract.VideoIdOfAddress | PyDestreamer.py:149 | An address `<prefix>/video/<id><rest>` with a 36-character id (or a shorter id ending the address), and no earlier `/video/`, yields exactly that id. |
| Extract.JsonText | PyDestreamer.py:154 | Fails with `BraceMissing` exactly when the page lacks a `{` or a `}`. Otherwise the text runs from the first `{` through the last `}` inclusive, and is empty when the last `}` comes before the first `{`. |
| Extract.JsonTextOfWrapped | PyDestreamer.py:154 | A JSON object wrapped in markup with no `{` before it and no `}` after it is isolated exactly. |
| Playback.QueryOf | PyDestreamer.py:191 | The query never contains `#`. It is empty exactly as `urlparse` leaves it when the text before the first `#` has no `?`. Otherwise that text is a `?`-free head, `?`, then the query. |
| Playback.QueryOfAddress | PyDestreamer.py:191-192 | For `<head>?<query>` with an optional `#fragment`, where `head` holds neither `?` nor `#`, the query is exactly `query`. |
| Playback.Value | PyDestreamer.py:193-195 | Fails exactly when the part has no `=`. Otherwise the part is its key, `=`, then the value, so the value keeps any further `=`. |
| Playback.ParamOutcomeUnique | PyDestreamer.py:192-196 | The specified outcome of the parameter lookup is unique. |
| Playback.FirstKeyedExists | PyDestreamer.py:192-196 | When some part has the key, a first such part exists. |
| Playback.ParamOutcomeAt | PyDestreamer.py:194-196 | The value of the first part with the key is the outcome of the lookup. |
| Playback.ManifestParam | PyDestreamer.py:192-196 | The loop's result is the value of the first part keyed exactly `key`. It is `""` when no part has that key, and the `MalformedQueryPart` error when that first part has no `=`. |
| Playback.HlsManifestUrl | PyDestreamer.py:187-197 | Without an HLS entry the address is `""`. Otherwise it is the lookup outcome of `playbackurl` in the query of the FIRST HLS entry, and later HLS entries are ignored. |
| Variants.Partition | PyDestreamer.py:203-215 | `count` equals the number of video options. Each option is the playlist at its label, and labels strictly increase. Every playlist with a resolution is listed. Audio is `None` exactly when every playlist has a resolution, and is otherwise the last playlist without one. |
| Variants.LabelsAtLeastPositions | PyDestreamer.py:208 | Strictly increasing menu labels are never below their positions in the option list. |
| Variants.ChosenIndex | PyDestreamer.py:222-227 | The index is the requested quality when it lies in `[0, count-1]`, and `count-1` otherwise. With `count >= 1` it is always a valid index. |
| Variants.SelectVariant | PyDestreamer.py:222-230 | Fails with `NoVideoVariant` exactly when there is no video option. Otherwise it returns the requested option when in range, and the last one when not. |
| Variants.InteractiveChoice | PyDestreamer.py:218-230 | For an answer the validator accepted, it fails (`int('')`) exactly on the empty answer. Every other answer `n` is a valid index and selects `video_options[n]`. |
| Variants.LeadingAudioShiftsMenu | PyDestreamer.py:206-230 | When the first playlist has no resolution, every rendition is shown under a number above its index. Typing that number is refused by the validator when it is past the last index. Otherwise it selects the rendition whose index is that number, not the one shown next to it. |
| Validator.Validate | PyDestreamer.py:41-58 | Accepts exactly the empty text and digit strings below the maximum. Non-digit text is rejected with the cursor on its first non-digit. An all-digit number `>= maximum` is rejected as too large. |
| Cookies.LastNamedIndex | PyDestreamer.py:427-431 | `None` exactly when no cookie has the name. Otherwise it is the index of a cookie with that name that no later cookie shares. |
| Cookies.LastNamed | PyDestreamer.py:427-431 | The cookie a scan that overwrites on each match ends with: none exactly when no cookie has the name, else the last one with it. |
| Cookies.ScanJar | PyDestreamer.py:423-432 | The loop leaves the last `Authorization_Api` cookie and the last `Signature_Api` cookie of the jar. |
| Cookies.HeaderOf | PyDestreamer.py:427-448 | One read of the jar yields a header exactly when both cookies are present. The header is `Authorization=<v> Signature=<w>`, where `v` and `w` are the values of the LAST cookie of each name. |
| Cookies.ExtractCookies | PyDestreamer.py:434-448 | The first of the three reads that holds both cookies gives the header. When none does, the result is `None`. |
| Rewrite.BaseUrl | PyDestreamer.py:232 | Fails with `SlashMissing` exactly when the link has no `/`. Otherwise the base is a non-empty prefix of the link that ends in `/`, with no `/` after it. |
| Rewrite.BaseUrlOfPlaylistLink | PyDestreamer.py:232-235 | A media playlist whose URI has no `/` has the same base as the master playlist. |
| Rewrite.FetchListByLine | PyDestreamer.py:269 | With a base free of line breaks, the fetch-list has the playlist's line count, and each line is the fetch-list of the original line. |
| Rewrite.FetchListWithoutSegments | PyDestreamer.py:269 | A playlist without `Fragments` is its own fetch-list. |
| Rewrite.FetchListSegmentLine | PyDestreamer.py:269 | A segment line `Fragments<rest>` becomes `<base>Fragments<rest>`. |
| Rewrite.MergeListByLine | PyDestreamer.py:270-271 | With a key URI, key path and segment directory free of line breaks, the merge-list keeps the line count. Each line is the merge-list of the original line. |
| Rewrite.MergeListWithoutReferences | PyDestreamer.py:270-271 | A playlist mentioning neither the key URI nor `Fragments` is its own merge-list. |
| Rewrite.MergeListSegmentLine | PyDestreamer.py:271 | A segment line `Fragments<rest>` without the key URI becomes `<segment dir><rest>`. |
| Rewrite.MergeListKeyLine | PyDestreamer.py:270-271 | The key line's URI is replaced by the key path, and the second substitution then applies to the result, key path included. |
| Rewrite.MergeListKeyLineIntact | PyDestreamer.py:270-271 | When the substituted key line does not spell `Fragments`, the key line names the key path exactly. |
| Rewrite.MergeListRewritesKeyPath | PyDestreamer.py:270-271 | When the key path contains `Fragments` and the segment directory is absolute, the key line no longer names the key path. |
| Rewrite.KeySubstitutionNotIdempotent | PyDestreamer.py:270 | Running the key substitution twice can differ from running it once: key URI `k` with key path `/k` gives `/k` after one pass and `//k` after two. |
| Rewrite.SegmentsFirstKeyLine | PyDestreamer.py:270-271 | With the substitutions in the corrected order, the key line names the key path whatever the key path contains. |
| Rewrite.SegmentsFirstSegmentLine | PyDestreamer.py:271 | In the corrected order, segment lines are rewritten as in the merge-list as written. |
| Rewrite.SegmentsFirstByLine | PyDestreamer.py:270-271 | The corrected order also keeps the line count and works line by line. |
| Rewrite.WindowsKeyReplacement | PyDestreamer.py:259-262 | On Windows the key path keeps its length. Every `\` becomes `/` and every other character is unchanged. |
| Download.ClampConnections | PyDestreamer.py:279-283 | The count lies in `[1, 16]`. It equals the input exactly when the input is already in range, and is 16 above the range and 1 below it. |
| Download.ClampTwice | PyDestreamer.py:279-283 | Clamping the clamped count again gives the same count. |
| Workspace.Finish | PyDestreamer.py:328-336 | The video counts as saved exactly when the exit code is 0 and the output file exists. The workspace is to be removed exactly when, in addition, `keepTemp` is off. |
| Workspace.OutputTitle | PyDestreamer.py:318-319 | The title is kept when `<title>.mp4` is absent from the output directory. Otherwise it becomes the title, `-`, then the decimal numeral of the clock reading (the suffix parses back to `clock`). |
| Workspace.OutputPathIsNotTheExistingOne | PyDestreamer.py:318-321 | The disambiguated output path never equals the existing `<title>.mp4`. |
| Workspace.DistinctIdsDistinctWorkspaces | PyDestreamer.py:149-150 | Two different video ids, neither starting with `/`, get different workspace paths under the same output directory. |
| Workspace.AbsoluteIdSharesWorkspace | PyDestreamer.py:150 | An id starting with `/` replaces the output directory: under `/d`, the ids `/d/x` and `x` share one workspace path. |
| Workspace.Disk.RemoveTree | PyDestreamer.py:172 | The directory and every path inside it disappear, whether or not the directory is written with a trailing `/`, and nothing else changes. |
| Workspace.Disk.PrepareWorkspace | PyDestreamer.py:167-173 | The workspace exists afterwards. It is created when missing. It is wiped and recreated (empty) when `overwrite` is set. Otherwise it is left exactly as it was. Paths outside it are untouched. |
| Workspace.Disk.FinishVideo | PyDestreamer.py:328-340 | The outcome is `Finish` of the exit code and the output file's existence. The workspace tree is removed only on a save without `keepTemp`, and otherwise the disk is unchanged. |
| Strings.FindFrom | PyDestreamer.py:149 | The result is the first occurrence of the pattern at or after `from`, and `None` when there is none. |
| Strings.IndexOf | PyDestreamer.py:154 | The result is the first occurrence of the character, and `None` exactly when it is absent. |
| Strings.LastIndexOf | PyDestreamer.py:154 | The result is the last occurrence of the character, and `None` exactly when it is absent. |
| Strings.SplitOnce | PyDestreamer.py:193 | Without the separator the whole text is the head. Otherwise the text is head, separator, tail, and the head holds no separator. |
| Strings.JoinSplit | PyDestreamer.py:192 | Joining the parts of a split on the same separator gives the text back. |
| Strings.SplitJoin | PyDestreamer.py:192 | Splitting the join of separator-free parts gives the parts back. |
| Strings.ReplaceAllNoMatch | PyDestreamer.py:269-271 | Replacing a non-empty pattern that does not occur changes nothing. |
| Strings.ReplaceAllFirst | PyDestreamer.py:269-271 | Text before the first occurrence is kept, that occurrence is replaced, and the rest is rewritten on its own. |
| Strings.ReplaceAllAround | PyDestreamer.py:269-271 | A character that cannot be part of the pattern splits the replacement into two independent halves. |
| Strings.SplitReplaceAll | PyDestreamer.py:269-271 | With pattern and replacement free of the separator, splitting commutes with replacement. |
| Strings.ReplaceAllKeepsCharOut | PyDestreamer.py:269-271 | A character in neither the text nor the replacement is not in the result. |
| Strings.ReplaceAllChar | PyDestreamer.py:260 | Replacing one character by one character maps the text position by position. |
| Decimal.ParseShow | PyDestreamer.py:319 | `int(str(n)) == n` for every natural `n`. |

## Left out

- Browser automation, sign-in, keyring and e-mail prompting, the protection-key
  download and its sleep-then-exists check, HTTP requests, the m3u8 parser,
  the aria2c and ffmpeg processes, printing and colours. These are I/O,
  timing and foreign code. The parsed playlist records, the key URI, exit
  codes and the existence of files are inputs.
- The `prompt` call itself: the answer is an input, and
  `Variants.InteractiveChoice` assumes the validator accepted it.
- The text of the rendition menu: only the label numbers are modelled
  (`Variants.Partition`'s `labels`).
- `html.unescape` and `json.loads` after the JSON slice, and the `error` branch
  of the metadata.
- The title clean-up and date prefix (the `re.sub` call and
  `datetime.strptime`).
- `time.time_ns`, which is a parameter of `Workspace.OutputTitle`.
- The existence check of `<title>.mp4` is made against a set of paths given as
  a parameter.
- `os.path.abspath`: the absolute key path (POSIX branch of
  `Rewrite.KeyReplacement`) and the local segment directory are parameters.
- `os.path.join` is modelled with POSIX separators only.
- Workspace.Disk.PrepareWorkspace: `os.makedirs` creating missing parent
  directories is not modelled. Only the workspace directory itself is added.
- The `aria2c_codes` message lookup (PyDestreamer.py:291 and 314). It raises
  `IndexError` for a return code above 32. For a negative code (a process
  killed by a signal, such as -9) it counts from the end of the table and
  prints the wrong message without failing.
- The pauses between the three cookie-jar reads. `Cookies.ExtractCookies`
  takes the three jar contents as parameters.
- Playback.QueryOf: `urllib.parse.urlparse`'s removal of unsafe whitespace
  and control characters, done by newer Python versions, is not modelled.
  The query is the text after the first `?` of what precedes the first `#`.
  Nor is the `ValueError` that `urlparse` raises on a malformed network
  location. Examples are an unmatched `[` or `]`, a bracketed host that is
  not an IP address, and a non-ASCII location that normalises to one of
  `/?#@:`. The model always yields a query.
- Decimal.IsDigit: `str.isdigit` also accepts non-ASCII digits, and only the
  ASCII digits are modelled. Some of those characters are not decimal digits
  (superscripts such as `²`), and `int` raises `ValueError` on them. On such
  text `validate` (PyDestreamer.py:56) raises `ValueError`, not
  `ValidationError`.
- Validator.Validate: the raised error's message is not modelled. The message
  for a too-large number fails to format (`%` binds before `-`) and would
  raise `TypeError` instead of `ValidationError`. Only the verdict and the
  cursor are modelled.
- Variants.Partition: when no playlist lacks a resolution, the source never
  assigns `audioObj` and later fails (or reuses a previous video's value).
  The model returns `None` and does not follow the audio download further.
- Variants.SelectVariant: as written, the quality branch never reaches the
  selection at PyDestreamer.py:230. Both of its prints (PyDestreamer.py:224
  and 228) read `['resolution']` directly from a playlist record, where the
  resolution sits under `['stream_info']` (PyDestreamer.py:207-208), so each
  raises `KeyError` first. The model follows the intended selection instead:
  the requested rendition when in range, else the last one.
- Rewrite.MergeList: the key substitution (PyDestreamer.py:270 and 301) is
  not idempotent, and the model does not claim that it is. A key path that
  contains the key URI is rewritten again by a second pass: with key URI `k`
  and key path `/k`, one pass turns `k` into `/k` and two passes give `//k`
  (`Rewrite.KeySubstitutionNotIdempotent`). The source runs the substitution
  once per playlist.
- Workspace.JoinPath: distinct video ids get distinct workspaces
  (PyDestreamer.py:150) only when neither id starts with `/`
  (`Workspace.DistinctIdsDistinctWorkspaces`). `os.path.join` discards the
  output directory before an absolute id. With output directory `/d`, the
  ids `/d/x` and `x` share the workspace `/d/x`
  (`Workspace.AbsoluteIdSharesWorkspace`).
- Strings.Split: its contract only states that there is at least one part.
  The split is tied to its inverse by `Strings.JoinSplit` and
  `Strings.SplitJoin`.
- The audio playlist's rewrite (PyDestreamer.py:299-302) uses the same
  `Rewrite.BaseUrl`, `Rewrite.FetchList` and `Rewrite.MergeList` as the video
  playlist, with the audio segment directory. It has no separate members.

## Findings

| source | as written | input that shows it | evidently intended | confidence | as-written member | corrected member |
|---|---|---|---|---|---|---|
| PyDestreamer.py:270-271 (also 301-302) | The merge-list first replaces the key URI with the local key path, then replaces every `Fragments` in the whole text, including inside the key path just written. | Output directory `-o Fragments`. The key path becomes `<cwd>/Fragments/<id>/protectionKey`, and its `Fragments` is rewritten to the absolute segment directory, so the key line no longer names the downloaded key. | The key line names the downloaded key file whatever the output directory is called. This holds when the segment references are rewritten before the key URI (which requires the key URI not to spell `Fragments`). | medium, not executed | Rewrite.MergeListRewritesKeyPath | Rewrite.SegmentsFirstKeyLine |
