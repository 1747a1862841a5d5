/**
 * The line parsing of `GitCommandService.getStatus` (`src/gitCommandService.ts`): each non-blank
 * line of `git status --porcelain` is a two-character XY code, a space and a path, and becomes a
 * path with one of the extension's status labels.
 */
module GitStatus {
  import opened Wrappers
  import opened Strings
  import opened Seqs

  /** `FileStatus['status']`. */
  datatype Status = Modified | Staged | Untracked | Deleted | Added

  /** `FileStatus`. */
  datatype FileStatus = FileStatus(path: string, status: Status)

  /** `line[i]`: the character at `i`, or `undefined` past the end. */
  function CharAt(line: string, i: nat): (r: Option<char>)
    ensures r.Some? <==> i < |line|
    ensures r.Some? ==> r.value == line[i]
  {
    if i < |line| then Some(line[i]) else None
  }

  /** The if-chain on the index and work-tree characters `x` and `y`. */
  function Classify(x: Option<char>, y: Option<char>): Status {
    if x == Some('M') || x == Some('A') then Staged
    else if y == Some('M') then Modified
    else if x == Some('?') && y == Some('?') then Untracked
    else if x == Some('D') || y == Some('D') then Deleted
    else Modified
  }

  /** The status of one line, its path being everything from index 3 on. */
  function LineStatus(line: string): FileStatus {
    FileStatus(SubstringFrom(line, 3), Classify(CharAt(line, 0), CharAt(line, 1)))
  }

  /** `line.trim() !== ''`. */
  predicate NonBlank(line: string) {
    Trim(line) != ""
  }

  /** `stdout.split('\n').filter(line => line.trim() !== '')`. */
  function StatusLines(stdout: string): seq<string> {
    Filter(NonBlank, Split(stdout, '\n'))
  }

  /**
   * `GitCommandService.getStatus`, with the output of `git status --porcelain` as a parameter:
   * `None` when the command fails, which the code maps to no entries.
   */
  function GetStatus(stdout: Option<string>): seq<FileStatus> {
    match stdout
    case None => []
    case Some(out) =>
      var lines := StatusLines(out);
      seq(|lines|, i requires 0 <= i < |lines| => LineStatus(lines[i]))
  }

  /**
   * The classification by status: staged exactly when the index character is `M` or `A`;
   * otherwise modified when the work-tree character is `M`, untracked for `??`, deleted when
   * either is `D`, and modified for any other code. `Added` is never produced.
   */
  lemma ClassifyCases(x: Option<char>, y: Option<char>)
    ensures Classify(x, y) == Staged <==> x == Some('M') || x == Some('A')
    ensures Classify(x, y) == Untracked <==> x == Some('?') && y == Some('?')
    ensures Classify(x, y) == Deleted <==>
      x != Some('M') && x != Some('A') && y != Some('M') && !(x == Some('?') && y == Some('?')) &&
      (x == Some('D') || y == Some('D'))
    ensures Classify(x, y) == Modified <==>
      x != Some('M') && x != Some('A') &&
      (y == Some('M') || (!(x == Some('?') && y == Some('?')) && x != Some('D') && y != Some('D')))
    ensures Classify(x, y) != Added
  {
  }

  /** `"MD"`, staged in the index and deleted in the work tree, counts as staged. */
  lemma StagedWinsOverDeleted()
    ensures LineStatus("MD file.txt") == FileStatus("file.txt", Staged)
  {
    assert "MD file.txt"[3..] == "file.txt";
  }

  /** The lines kept are exactly the non-blank ones, in their order in the output, duplicates included. */
  lemma StatusLinesFacts(stdout: string)
    ensures IsSubsequence(StatusLines(stdout), Split(stdout, '\n'))
    ensures forall l :: l in StatusLines(stdout) <==> l in Split(stdout, '\n') && Trim(l) != ""
    ensures forall l ::
      multiset(StatusLines(stdout))[l] == (if Trim(l) != "" then multiset(Split(stdout, '\n'))[l] else 0)
  {
    FilterFacts(NonBlank, Split(stdout, '\n'));
  }

  /**
   * A line of at least three characters is its two-character code, a separator character and
   * the entry's path; a shorter line has an empty path.
   */
  lemma LineStatusPath(line: string)
    ensures |line| >= 3 ==> line == line[..3] + LineStatus(line).path
    ensures |line| <= 3 ==> LineStatus(line).path == ""
  {
    if |line| >= 3 {
      assert line == line[..3] + line[3..];
    }
  }

  /** The entries of two blocks of output joined by a line break are those of each block, in order. */
  lemma GetStatusConcat(a: string, b: string)
    ensures GetStatus(Some(a + "\n" + b)) == GetStatus(Some(a)) + GetStatus(Some(b))
  {
    SplitAround(a, '\n', b);
    FilterConcat(NonBlank, Split(a, '\n'), Split(b, '\n'));
    var la, lb := StatusLines(a), StatusLines(b);
    assert StatusLines(a + "\n" + b) == la + lb;
    var r, ra, rb := GetStatus(Some(a + "\n" + b)), GetStatus(Some(a)), GetStatus(Some(b));
    assert |r| == |ra| + |rb|;
    forall i | 0 <= i < |r|
      ensures r[i] == (ra + rb)[i]
    {
      if i < |la| {
        assert (la + lb)[i] == la[i];
      } else {
        assert (la + lb)[i] == lb[i - |la|];
      }
    }
  }

  /** A single line gives its entry when it is not blank, and nothing when it is. */
  lemma GetStatusLine(line: string)
    requires '\n' !in line
    ensures GetStatus(Some(line)) == if NonBlank(line) then [LineStatus(line)] else []
  {
    SplitNoSeparator(line, '\n');
    assert [line][0] == line && [line][1..] == [];
    assert Filter(NonBlank, [line][1..]) == [];
    assert StatusLines(line) == (if NonBlank(line) then [line] else []) + [];
  }

  /** A failing command yields no entries, and so does output made only of blank lines. */
  lemma GetStatusEmpty(stdout: string)
    requires forall l :: l in Split(stdout, '\n') ==> Trim(l) == ""
    ensures GetStatus(None) == [] && GetStatus(Some(stdout)) == []
  {
    FilterNone(NonBlank, Split(stdout, '\n'));
  }
}
