/**
 * The files the pipeline creates and removes around one video: the
 * workspace directory named by the video id, the merged output file and
 * the final cleanup decision.
 */
module Workspace {
  import opened Decimal

  /** `os.path.join(a, b)` with POSIX separators. */
  function JoinPath(a: string, b: string): string {
    if |b| > 0 && b[0] == '/' then b
    else if a == "" || a[|a| - 1] == '/' then a + b
    else a + "/" + b
  }

  /**
   * The workspace of a video is `os.path.join(outputDirectory, videoId)`.
   * Two different ids get two different workspaces as long as neither id
   * starts with `/`.
   */
  lemma {:induction false} DistinctIdsDistinctWorkspaces(outputDirectory: string, id1: string, id2: string)
    requires id1 != id2
    requires (|id1| == 0 || id1[0] != '/') && (|id2| == 0 || id2[0] != '/')
    ensures JoinPath(outputDirectory, id1) != JoinPath(outputDirectory, id2)
  {
    var sep := if outputDirectory == "" || outputDirectory[|outputDirectory| - 1] == '/' then "" else "/";
    var head := outputDirectory + sep;
    assert JoinPath(outputDirectory, id1) == head + id1;
    assert JoinPath(outputDirectory, id2) == head + id2;
    assert (head + id1)[|head|..] == id1;
    assert (head + id2)[|head|..] == id2;
  }

  /**
   * An id starting with `/` replaces the output directory altogether, so it
   * can share the workspace of an ordinary id.
   */
  lemma AbsoluteIdSharesWorkspace()
    ensures JoinPath("/d", "/d/x") == JoinPath("/d", "x")
  {
    assert "/d" + "/" + "x" == "/d/x";
  }

  /** The prefix every path inside the directory `dir` starts with: `dir` with one trailing `/`. */
  function DirPrefix(dir: string): string {
    if |dir| > 0 && dir[|dir| - 1] == '/' then dir else dir + "/"
  }

  /** `p` lies strictly inside the directory `dir`, whether or not `dir` is written with a trailing `/`. */
  predicate Inside(p: string, dir: string) {
    var prefix := DirPrefix(dir);
    p != dir && |prefix| <= |p| && p[..|prefix|] == prefix
  }

  /** What becomes of a video once the remuxer has exited. */
  datatype Outcome =
    | Saved(removeWorkspace: bool)   // the output file exists; the workspace goes unless it is kept
    | Failed                         // the workspace is kept for diagnosis

  /**
   * `noerr = returncode == 0 and os.path.exists(videoPath)`, then
   * `shutil.rmtree` unless `keepTemp`: the exit code alone is not trusted,
   * and a failed merge always keeps the workspace.
   */
  function Finish(exitCode: int, outputExists: bool, keepTemp: bool): (o: Outcome)
    ensures o.Saved? <==> exitCode == 0 && outputExists
    ensures o == Saved(true) <==> exitCode == 0 && outputExists && !keepTemp
  {
    if exitCode == 0 && outputExists then Saved(!keepTemp) else Failed
  }

  /**
   * The title the merged file is saved under: the title itself, or, when
   * `<title>.mp4` already exists in the output directory, the title with
   * `-` and the nanosecond clock reading appended.
   */
  function OutputTitle(existing: set<string>, outputDirectory: string, title: string, clock: nat): (t: string)
    ensures JoinPath(outputDirectory, title + ".mp4") !in existing ==> t == title
    ensures JoinPath(outputDirectory, title + ".mp4") in existing ==>
              |t| > |title| && t[..|title|] == title && t[|title|] == '-' && AllDigits(t[|title| + 1..]) &&
              Parse(t[|title| + 1..]) == clock
  {
    if JoinPath(outputDirectory, title + ".mp4") in existing then
      var t := title + "-" + Show(clock);
      assert t[|title| + 1..] == Show(clock);
      ParseShow(clock);
      t
    else title
  }

  /** The disambiguated file never lands on the existing `<title>.mp4`. */
  lemma OutputPathIsNotTheExistingOne(existing: set<string>, outputDirectory: string, title: string, clock: nat)
    requires JoinPath(outputDirectory, title + ".mp4") in existing
    ensures JoinPath(outputDirectory, OutputTitle(existing, outputDirectory, title, clock) + ".mp4") !=
            JoinPath(outputDirectory, title + ".mp4")
  {
    var t := OutputTitle(existing, outputDirectory, title, clock);
    var old_name, new_name := title + ".mp4", t + ".mp4";
    assert |new_name| > |old_name|;
    if |title| > 0 {
      assert new_name[0] == old_name[0] == title[0];
    } else {
      assert old_name[0] == '.' && new_name[0] == '-';
    }
  }

  /** The paths that exist, directories and files alike. */
  class Disk {
    var paths: set<string>

    constructor (initial: set<string>)
      ensures paths == initial
    {
      paths := initial;
    }

    /** `shutil.rmtree(dir)`: the directory and everything inside it are gone, nothing else. */
    method RemoveTree(dir: string)
      requires dir in paths
      modifies this
      ensures paths == set p | p in old(paths) && p != dir && !Inside(p, dir)
    {
      paths := set p | p in paths && p != dir && !Inside(p, dir);
    }

    /**
     * Workspace preparation: a missing workspace is created; an existing one
     * is wiped and recreated when `overwrite` is set and otherwise left
     * exactly as it is. Nothing outside the workspace changes.
     */
    method PrepareWorkspace(dir: string, overwrite: bool)
      modifies this
      ensures dir in paths
      ensures old(dir in paths) && !overwrite ==> paths == old(paths)
      ensures old(dir !in paths) ==> paths == old(paths) + {dir}
      ensures old(dir in paths) && overwrite ==> forall p :: p in paths ==> !Inside(p, dir)
      ensures forall p :: p != dir && !Inside(p, dir) ==> (p in paths <==> p in old(paths))
    {
      if dir !in paths {
        paths := paths + {dir};
      } else if overwrite {
        RemoveTree(dir);
        paths := paths + {dir};
      }
    }

    /**
     * After the remuxer exits: the workspace is removed only when the exit
     * code is 0, the output file exists and `keepTemp` is off; in every
     * other case nothing changes.
     */
    method FinishVideo(workspace: string, videoPath: string, exitCode: int, keepTemp: bool)
      returns (outcome: Outcome)
      requires workspace in paths
      modifies this
      ensures outcome == Finish(exitCode, videoPath in old(paths), keepTemp)
      ensures outcome == Saved(true) ==> paths == set p | p in old(paths) && p != workspace && !Inside(p, workspace)
      ensures outcome != Saved(true) ==> paths == old(paths)
    {
      var noerr := exitCode == 0 && videoPath in paths;
      if noerr {
        outcome := Saved(!keepTemp);
        if !keepTemp {
          RemoveTree(workspace);
        }
      } else {
        outcome := Failed;
      }
    }
  }
}
