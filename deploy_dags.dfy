/** The changed-DAG scan of the Composer CI/CD sample: the lines of a
    `git diff` that name a file under the DAG directory, and the paths
    built from them under the repository root. */
module DeployDags {
  import opened Prelude
  import PyText

  /** `Path(repo_root) / Path(rest)`, kept symbolic: `pathlib`'s joining
      and normalisation rules are not modelled. */
  datatype Path = Joined(root: string, relative: string)

  /** `line[6:]`: what follows the first six characters, empty under
      Python's slice rules when the line is shorter. */
  function AfterMarker(line: string): (r: string)
    ensures |line| >= 6 ==> line == line[..6] + r
    ensures |line| < 6 ==> r == ""
  {
    if |line| >= 6 then line[6..] else ""
  }

  /** The test of the loop: the line contains `+++ b` and the DAG directory
      as substrings. */
  predicate Changed(line: string, dagDir: string) {
    PyText.Contains(line, "+++ b") && PyText.Contains(line, dagDir)
  }

  /** The path appended for a changed line. */
  function PathOf(line: string, repoRoot: string): Path {
    Joined(repoRoot, AfterMarker(line))
  }

  /** The list the loop has built after visiting `lines`. */
  function ChangedPaths(lines: seq<string>, dagDir: string, repoRoot: string): (r: seq<Path>)
    ensures |r| <= |lines|
  {
    if lines == [] then []
    else
      var last := lines[|lines| - 1];
      ChangedPaths(lines[..|lines| - 1], dagDir, repoRoot)
        + (if Changed(last, dagDir) then [PathOf(last, repoRoot)] else [])
  }

  /** `create_dags_list_from_git_diff` once the diff text is in hand: the
      text is split on `\n` and every changed line is appended, in order,
      as a path below the repository root.  The DAG directory is returned
      unchanged beside the list. */
  method CreateDagsListFromGitDiff(dagDir: string, repoRoot: string, diffResults: string)
    returns (dir: string, changedFileList: seq<Path>)
    ensures dir == dagDir
    ensures changedFileList == ChangedPaths(PyText.Split(diffResults, '\n'), dagDir, repoRoot)
  {
    var lines := PyText.Split(diffResults, '\n');
    changedFileList := [];
    for i := 0 to |lines|
      invariant changedFileList == ChangedPaths(lines[..i], dagDir, repoRoot)
    {
      var diffResultLine := lines[i];
      assert lines[..i + 1][..i] == lines[..i];
      if PyText.Contains(diffResultLine, "+++ b") && PyText.Contains(diffResultLine, dagDir) {
        var changedPath := Joined(repoRoot, AfterMarker(diffResultLine));
        changedFileList := changedFileList + [changedPath];
      }
    }
    assert lines[..|lines|] == lines;
    dir := dagDir;
  }

  /** The scan of two consecutive blocks of lines is the scan of the first
      followed by the scan of the second. */
  lemma {:induction false} ChangedPathsConcat(a: seq<string>, b: seq<string>, dagDir: string, repoRoot: string)
    ensures ChangedPaths(a + b, dagDir, repoRoot)
         == ChangedPaths(a, dagDir, repoRoot) + ChangedPaths(b, dagDir, repoRoot)
    decreases |b|
  {
    if b == [] {
      assert a + b == a;
    } else {
      var b' := b[..|b| - 1];
      assert (a + b)[..|a + b| - 1] == a + b';
      ChangedPathsConcat(a, b', dagDir, repoRoot);
    }
  }

  /** One line contributes its path when it is changed and nothing
      otherwise. */
  lemma ChangedPathsOne(line: string, dagDir: string, repoRoot: string)
    ensures ChangedPaths([line], dagDir, repoRoot)
         == if Changed(line, dagDir) then [PathOf(line, repoRoot)] else []
  {
    assert [line][..0] == [];
  }

  /** Every entry is the path of some changed line. */
  lemma {:induction false} ChangedPathsSound(lines: seq<string>, dagDir: string, repoRoot: string, k: int)
    requires 0 <= k < |ChangedPaths(lines, dagDir, repoRoot)|
    ensures exists j :: 0 <= j < |lines| && Changed(lines[j], dagDir)
                        && ChangedPaths(lines, dagDir, repoRoot)[k] == PathOf(lines[j], repoRoot)
    decreases |lines|
  {
    var init := lines[..|lines| - 1];
    var last := lines[|lines| - 1];
    if k < |ChangedPaths(init, dagDir, repoRoot)| {
      ChangedPathsSound(init, dagDir, repoRoot, k);
      var j :| 0 <= j < |init| && Changed(init[j], dagDir)
               && ChangedPaths(init, dagDir, repoRoot)[k] == PathOf(init[j], repoRoot);
      assert lines[j] == init[j];
    } else {
      assert Changed(last, dagDir);
      assert ChangedPaths(lines, dagDir, repoRoot)[k] == PathOf(lines[|lines| - 1], repoRoot);
    }
  }

  /** Every changed line contributes its path, at the position given by
      the number of entries of the lines before it: entries follow line
      order, and repeated lines give repeated entries. */
  lemma ChangedPathsComplete(lines: seq<string>, dagDir: string, repoRoot: string, j: int)
    requires 0 <= j < |lines| && Changed(lines[j], dagDir)
    ensures var n := |ChangedPaths(lines[..j], dagDir, repoRoot)|;
      n < |ChangedPaths(lines, dagDir, repoRoot)|
      && ChangedPaths(lines, dagDir, repoRoot)[n] == PathOf(lines[j], repoRoot)
  {
    assert lines == lines[..j] + [lines[j]] + lines[j + 1..];
    ChangedPathsConcat(lines[..j] + [lines[j]], lines[j + 1..], dagDir, repoRoot);
    ChangedPathsConcat(lines[..j], [lines[j]], dagDir, repoRoot);
    ChangedPathsOne(lines[j], dagDir, repoRoot);
  }

  /** A line that is not changed contributes nothing. */
  lemma UnchangedLineIgnored(before: seq<string>, line: string, after: seq<string>,
                             dagDir: string, repoRoot: string)
    requires !Changed(line, dagDir)
    ensures ChangedPaths(before + [line] + after, dagDir, repoRoot)
         == ChangedPaths(before + after, dagDir, repoRoot)
  {
    ChangedPathsConcat(before + [line], after, dagDir, repoRoot);
    ChangedPathsConcat(before, [line], dagDir, repoRoot);
    ChangedPathsOne(line, dagDir, repoRoot);
    ChangedPathsConcat(before, after, dagDir, repoRoot);
  }

  /** Of two changed lines, the earlier one's entry comes first. */
  lemma ChangedPathsOrdered(lines: seq<string>, dagDir: string, repoRoot: string, i: int, j: int)
    requires 0 <= i < j < |lines| && Changed(lines[i], dagDir)
    ensures |ChangedPaths(lines[..i], dagDir, repoRoot)| < |ChangedPaths(lines[..j], dagDir, repoRoot)|
  {
    assert lines[..j] == lines[..i] + [lines[i]] + lines[i + 1..j];
    ChangedPathsConcat(lines[..i] + [lines[i]], lines[i + 1..j], dagDir, repoRoot);
    ChangedPathsConcat(lines[..i], [lines[i]], dagDir, repoRoot);
    ChangedPathsOne(lines[i], dagDir, repoRoot);
  }

  /** A diff without text names no file. */
  lemma EmptyDiff(dagDir: string, repoRoot: string)
    ensures ChangedPaths(PyText.Split("", '\n'), dagDir, repoRoot) == []
  {
    PyText.SplitEmpty('\n');
    assert !PyText.OccursAt("", "+++ b", 0);
    ChangedPathsOne("", dagDir, repoRoot);
  }

  /** The lines scanned are exactly the text's `\n`-separated pieces: they
      join back into the text and none of them holds a line break. */
  lemma LinesOfDiff(diffResults: string)
    ensures var lines := PyText.Split(diffResults, '\n');
      && PyText.JoinWith(lines, '\n') == diffResults
      && |lines| == PyText.Count(diffResults, '\n') + 1
      && forall k, i :: 0 <= k < |lines| && 0 <= i < |lines[k]| ==> lines[k][i] != '\n'
  {
    PyText.SplitJoin(diffResults, '\n');
    PyText.SplitLength(diffResults, '\n');
  }
}
