/**
 * Splitting the master playlist into video renditions and the audio
 * rendition, and choosing the video rendition to download.
 */
module Variants {
  import opened Types
  import opened Decimal
  import opened Validator

  /**
   * One `#EXT-X-STREAM-INF` entry of the master playlist (section 4.3.4.2 of
   * RFC 8216) as the playlist parser returns it: its URI, and the value of
   * its RESOLUTION attribute when it has one.
   */
  datatype Playlist = Playlist(uri: string, resolution: Option<string>)

  predicate IsVideo(p: Playlist) {
    p.resolution.Some?
  }

  /** `playlists[i]` has no resolution and is the last of the first `n` without one. */
  predicate LastAudioBefore(playlists: seq<Playlist>, n: int, i: int) {
    0 <= i < n <= |playlists| && !IsVideo(playlists[i]) &&
    forall j :: i < j < n ==> IsVideo(playlists[j])
  }

  /**
   * The menu lists `videoOptions[k]` under the number `labels[k]`: its
   * position among ALL playlists of the master playlist, so the numbers
   * strictly increase but skip every playlist without a resolution.
   */
  predicate MenuLabels(playlists: seq<Playlist>, videoOptions: seq<Playlist>, labels: seq<nat>) {
    |labels| == |videoOptions| &&
    (forall k :: 0 <= k < |labels| ==>
       labels[k] < |playlists| && playlists[labels[k]] == videoOptions[k] && IsVideo(videoOptions[k])) &&
    (forall k, l :: 0 <= k < l < |labels| ==> labels[k] < labels[l])
  }

  /**
   * The loop over the master playlist: every playlist with a resolution is
   * appended to `videoOptions` and listed in the menu under its position
   * among ALL playlists (`labels`); one without a resolution overwrites the
   * audio candidate.
   */
  method Partition(playlists: seq<Playlist>)
    returns (videoOptions: seq<Playlist>, labels: seq<nat>, count: nat, audio: Option<Playlist>)
    ensures count == |videoOptions|
    ensures MenuLabels(playlists, videoOptions, labels)
    ensures forall i :: 0 <= i < |playlists| && IsVideo(playlists[i]) ==> i in labels
    ensures audio.None? <==> forall i :: 0 <= i < |playlists| ==> IsVideo(playlists[i])
    ensures audio.Some? ==> exists i :: LastAudioBefore(playlists, |playlists|, i) && audio.value == playlists[i]
  {
    videoOptions, labels, count, audio := [], [], 0, None;
    ghost var audioAt := -1;
    var i := 0;
    while i < |playlists|
      invariant 0 <= i <= |playlists|
      invariant count == |videoOptions|
      invariant LabelledBefore(playlists, videoOptions, labels, i)
      invariant audio.None? <==> forall j :: 0 <= j < i ==> IsVideo(playlists[j])
      invariant audio.Some? ==> LastAudioBefore(playlists, i, audioAt) && audio.value == playlists[audioAt]
    {
      if IsVideo(playlists[i]) {
        LabelVideo(playlists, videoOptions, labels, i);
        labels := labels + [i];
        count := count + 1;
        videoOptions := videoOptions + [playlists[i]];
      } else {
        SkipAudio(playlists, videoOptions, labels, i);
        audio := Some(playlists[i]);
        audioAt := i;
      }
      i := i + 1;
    }
  }

  /**
   * The loop's bookkeeping after the first `n` playlists: the options and
   * their labels so far, and every video playlist among them labelled.
   */
  predicate LabelledBefore(playlists: seq<Playlist>, videoOptions: seq<Playlist>, labels: seq<nat>, n: int) {
    n <= |playlists| && MenuLabels(playlists, videoOptions, labels) &&
    (forall k :: 0 <= k < |labels| ==> labels[k] < n) &&
    (forall j :: 0 <= j < n && IsVideo(playlists[j]) ==> j in labels)
  }

  /** A video playlist is appended to the options under its own position. */
  lemma LabelVideo(playlists: seq<Playlist>, videoOptions: seq<Playlist>, labels: seq<nat>, i: int)
    requires 0 <= i < |playlists| && IsVideo(playlists[i])
    requires LabelledBefore(playlists, videoOptions, labels, i)
    ensures LabelledBefore(playlists, videoOptions + [playlists[i]], labels + [i], i + 1)
  {
    var labels', options' := labels + [i], videoOptions + [playlists[i]];
    assert forall k :: 0 <= k < |labels| ==> labels'[k] == labels[k] && options'[k] == videoOptions[k];
    assert forall j :: j in labels ==> j in labels';
  }

  /** A playlist without a resolution leaves the options and labels alone. */
  lemma SkipAudio(playlists: seq<Playlist>, videoOptions: seq<Playlist>, labels: seq<nat>, i: int)
    requires 0 <= i < |playlists| && !IsVideo(playlists[i])
    requires LabelledBefore(playlists, videoOptions, labels, i)
    ensures LabelledBefore(playlists, videoOptions, labels, i + 1)
  {
  }

  /**
   * The index used when a quality is given on the command line: the
   * requested one when it lies in [0, count - 1], otherwise count - 1.
   */
  function ChosenIndex(quality: int, count: nat): (k: int)
    ensures count >= 1 ==> 0 <= k < count
    ensures k == quality <==> 0 <= quality < count || quality == count - 1
    ensures k != quality ==> k == count - 1
  {
    if quality < 0 || quality > count - 1 then count - 1 else quality
  }

  /**
   * `video_options[res_choice]` for a quality given on the command line;
   * with no video rendition the index is -1 and the lookup raises.
   */
  function SelectVariant(videoOptions: seq<Playlist>, quality: int): (r: Result<Playlist>)
    ensures r.Err? <==> |videoOptions| == 0
    ensures 0 <= quality < |videoOptions| ==> r == Ok(videoOptions[quality])
    ensures r.Ok? && !(0 <= quality < |videoOptions|) ==> r == Ok(videoOptions[|videoOptions| - 1])
  {
    var k := ChosenIndex(quality, |videoOptions|);
    if 0 <= k < |videoOptions| then Ok(videoOptions[k]) else Err(NoVideoVariant)
  }

  /**
   * `video_options[int(answer)]` for an answer the prompt accepted under
   * `NumberValidator(count)`: every non-empty accepted answer names a
   * rendition; the empty answer, which the validator also lets through,
   * makes `int('')` raise.
   */
  function InteractiveChoice(videoOptions: seq<Playlist>, answer: string): (r: Result<Playlist>)
    requires Accepts(answer, |videoOptions|)
    ensures r.Err? <==> answer == ""
    ensures r.Ok? ==> Parse(answer) < |videoOptions| && r.value == videoOptions[Parse(answer)]
  {
    if answer == "" then Err(EmptyChoice) else Ok(videoOptions[Parse(answer)])
  }

  /**
   * Strictly increasing menu labels never fall below their positions: the
   * k-th video rendition is listed under a number at least k.
   */
  lemma {:induction false} LabelsAtLeastPositions(labels: seq<nat>)
    requires forall k, l :: 0 <= k < l < |labels| ==> labels[k] < labels[l]
    ensures forall k :: 0 <= k < |labels| ==> k <= labels[k]
  {
    if |labels| > 0 {
      var front := labels[..|labels| - 1];
      assert forall k, l :: 0 <= k < l < |front| ==> front[k] < front[l];
      LabelsAtLeastPositions(front);
      if |labels| > 1 {
        assert labels[|labels| - 2] < labels[|labels| - 1];
      }
    }
  }

  /**
   * When the master playlist starts with the audio playlist, every rendition
   * is listed under a number above its index in `videoOptions`, while the
   * answer is used as that index: typing the number shown next to a
   * rendition either selects a different rendition (the one whose index is
   * that number) or, past the last index, is refused by the validator.
   */
  lemma LeadingAudioShiftsMenu(playlists: seq<Playlist>, videoOptions: seq<Playlist>, labels: seq<nat>, k: int)
    requires MenuLabels(playlists, videoOptions, labels)
    requires |playlists| > 0 && !IsVideo(playlists[0])
    requires 0 <= k < |labels|
    ensures k < labels[k]
    ensures Accepts(Show(labels[k]), |videoOptions|) <==> labels[k] < |videoOptions|
    ensures labels[k] < |videoOptions| ==>
              InteractiveChoice(videoOptions, Show(labels[k])) == Ok(videoOptions[labels[k]])
  {
    assert labels[0] != 0;
    var shifted := seq(|labels|, j requires 0 <= j < |labels| => labels[j] - 1);
    assert forall j :: 0 <= j < |labels| ==> labels[0] <= labels[j];
    LabelsAtLeastPositions(shifted);
    assert k <= shifted[k];
    ParseShow(labels[k]);
  }

  /**
   * Two video renditions followed by the audio rendition, quality 1
   * requested: the 720p rendition and the audio playlist are used.
   */
  method ThreeRenditionScenario() {
    var low := Playlist("a.m3u8", Some("640x360"));
    var high := Playlist("b.m3u8", Some("1280x720"));
    var sound := Playlist("c.m3u8", None);
    var videoOptions, labels, count, audio := Partition([low, high, sound]);
    assert 0 in labels && 1 in labels;
    assert forall k :: 0 <= k < count ==> labels[k] <= 1;
    LabelsAtLeastPositions(labels);
    var k0 :| 0 <= k0 < |labels| && labels[k0] == 0;
    var k1 :| 0 <= k1 < |labels| && labels[k1] == 1;
    assert count - 1 <= labels[count - 1] <= 1;
    assert count == 2;
    assert labels == [0, 1];
    assert videoOptions == [low, high];
    assert LastAudioBefore([low, high, sound], 3, 2);
    assert audio == Some(sound);
    assert SelectVariant(videoOptions, 1) == Ok(high);
    assert SelectVariant(videoOptions, 7) == Ok(high);
  }
  /**
   * The audio rendition first: the menu shows the 360p rendition as 1 and
   * the 720p one as 2, yet the answer 1 selects the 720p rendition and the
   * answer 2 is refused.
   */
  method AudioFirstScenario() {
    var sound := Playlist("c.m3u8", None);
    var low := Playlist("a.m3u8", Some("640x360"));
    var high := Playlist("b.m3u8", Some("1280x720"));
    var videoOptions, labels, count, audio := Partition([sound, low, high]);
    assert 1 in labels && 2 in labels;
    assert forall k :: 0 <= k < count ==> 1 <= labels[k] <= 2;
    var k1 :| 0 <= k1 < |labels| && labels[k1] == 1;
    var k2 :| 0 <= k2 < |labels| && labels[k2] == 2;
    LeadingAudioShiftsMenu([sound, low, high], videoOptions, labels, count - 1);
    assert count == 2;
    assert labels == [1, 2];
    assert videoOptions == [low, high];
    LeadingAudioShiftsMenu([sound, low, high], videoOptions, labels, 0);
    LeadingAudioShiftsMenu([sound, low, high], videoOptions, labels, 1);
    assert Show(1) == "1" && Show(2) == "2";
    assert InteractiveChoice(videoOptions, "1") == Ok(high);
    assert !Accepts("2", count);
  }
}
