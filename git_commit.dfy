/**
 * `GitPlumbing.parseCommitContent` of `src/gitEngine.ts`: the header lines of a commit, up to the
 * first empty line, give the root tree (last `tree ` line) and the parents (every `parent ` line,
 * in order).
 */
module GitCommit {
  import opened Strings
  import opened Seqs

  /** The `{ tree, parents }` part of a decoded commit. */
  datatype CommitRefs = CommitRefs(tree: string, parents: seq<string>)

  predicate IsTreeLine(line: string) {
    StartsWith(line, "tree ")
  }

  predicate IsParentLine(line: string) {
    StartsWith(line, "parent ")
  }

  /** The number of header lines: the index of the first empty line, or all lines. */
  function HeaderLength(lines: seq<string>): (n: nat)
    ensures n <= |lines|
    ensures forall k :: 0 <= k < n ==> lines[k] != ""
    ensures n < |lines| ==> lines[n] == ""
    decreases |lines|
  {
    if lines == [] || lines[0] == "" then 0 else 1 + HeaderLength(lines[1..])
  }

  /** The trimmed remainder of the last `tree ` line, or `""` when there is none. */
  function LastTree(header: seq<string>): string
    decreases |header|
  {
    if header == [] then ""
    else
      var last := header[|header| - 1];
      if IsTreeLine(last) then Trim(last[5..]) else LastTree(header[..|header| - 1])
  }

  /** What one header line adds to the parents: its trimmed remainder if it is a `parent ` line. */
  function ParentOf(line: string): seq<string> {
    if !IsTreeLine(line) && IsParentLine(line) then [Trim(line[7..])] else []
  }

  /** The trimmed remainders of the `parent ` lines, in order. */
  function Parents(header: seq<string>): seq<string> {
    FlatMap(ParentOf, header)
  }

  /** What `parseCommitContent` returns for a commit's text. */
  function ParseCommit(text: string): CommitRefs {
    var lines := Split(text, '\n');
    var header := lines[..HeaderLength(lines)];
    CommitRefs(LastTree(header), Parents(header))
  }

  /** `parseCommitContent`: the source's loop over the lines, stopping at the first empty one. */
  method ParseCommitContent(content: string) returns (r: CommitRefs)
    ensures r == ParseCommit(content)
  {
    var lines := Split(content, '\n');
    var parents: seq<string> := [];
    var tree := "";
    var i := 0;
    while i < |lines|
      invariant i <= |lines|
      invariant forall k :: 0 <= k < i ==> lines[k] != ""
      invariant tree == LastTree(lines[..i]) && parents == Parents(lines[..i])
    {
      var line := lines[i];
      if line == "" {
        break;
      }
      HeaderStep(lines, i);
      if StartsWith(line, "tree ") {
        tree := Trim(line[5..]);
      } else if StartsWith(line, "parent ") {
        parents := parents + [Trim(line[7..])];
      }
      i := i + 1;
    }
    assert i == HeaderLength(lines);
    r := CommitRefs(tree, parents);
  }

  /** Reading the header one more line: what the loop body of `parseCommitContent` does. */
  lemma HeaderStep(lines: seq<string>, i: nat)
    requires i < |lines|
    ensures LastTree(lines[..i + 1]) == if IsTreeLine(lines[i]) then Trim(lines[i][5..]) else LastTree(lines[..i])
    ensures Parents(lines[..i + 1]) == Parents(lines[..i]) + ParentOf(lines[i])
  {
    assert lines[..i + 1][..i] == lines[..i];
  }

  // ---------------------------------------------------------------- properties

  /** Lines without a `tree ` line leave the tree of the header before them unchanged. */
  lemma {:induction false} LastTreeKept(h1: seq<string>, h2: seq<string>)
    requires forall k :: 0 <= k < |h2| ==> !IsTreeLine(h2[k])
    ensures LastTree(h1 + h2) == LastTree(h1)
    decreases |h2|
  {
    if h2 == [] {
      assert h1 + h2 == h1;
    } else {
      var h := h1 + h2;
      assert h[..|h| - 1] == h1 + h2[..|h2| - 1];
      LastTreeKept(h1, h2[..|h2| - 1]);
    }
  }

  /** Once lines holding a `tree ` line follow, the tree is theirs, whatever came before. */
  lemma {:induction false} LastTreeOverridden(h1: seq<string>, h2: seq<string>)
    requires exists k :: 0 <= k < |h2| && IsTreeLine(h2[k])
    ensures LastTree(h1 + h2) == LastTree(h2)
    decreases |h2|
  {
    var h, init := h1 + h2, h2[..|h2| - 1];
    assert h[..|h| - 1] == h1 + init;
    if !IsTreeLine(h2[|h2| - 1]) {
      var k :| 0 <= k < |h2| && IsTreeLine(h2[k]);
      assert init[k] == h2[k];
      LastTreeOverridden(h1, init);
    }
  }

  /** No `tree ` line at all: the tree is `""`. */
  lemma NoTreeLine(header: seq<string>)
    requires forall k :: 0 <= k < |header| ==> !IsTreeLine(header[k])
    ensures LastTree(header) == ""
  {
    LastTreeKept([], header);
    assert [] + header == header;
  }

  /** No `parent ` line at all: the parent list is empty (a root commit). */
  lemma {:induction false} NoParentLine(header: seq<string>)
    requires forall k :: 0 <= k < |header| ==> !IsParentLine(header[k])
    ensures Parents(header) == []
    decreases |header|
  {
    if header != [] {
      NoParentLine(header[..|header| - 1]);
    }
  }

  /**
   * Whatever follows an empty line never affects the result: two texts whose lines agree up to
   * and including an empty line parse alike.
   */
  lemma CommitBodyIgnored(t1: string, t2: string, n: nat)
    requires n < |Split(t1, '\n')| && n < |Split(t2, '\n')|
    requires Split(t1, '\n')[n] == ""
    requires Split(t1, '\n')[..n + 1] == Split(t2, '\n')[..n + 1]
    ensures ParseCommit(t1) == ParseCommit(t2)
  {
    var l1, l2 := Split(t1, '\n'), Split(t2, '\n');
    assert l2[n] == l2[..n + 1][n];
    HeaderWithin(l1, n);
    HeaderWithin(l2, n);
    var h := HeaderLength(l1);
    assert l1[..h] == l1[..n + 1][..h];
    assert l2[..h] == l2[..n + 1][..h];
  }

  /** With an empty line at `n`, the header lies within the first `n + 1` lines. */
  lemma HeaderWithin(lines: seq<string>, n: nat)
    requires n < |lines| && lines[n] == ""
    ensures HeaderLength(lines) == HeaderLength(lines[..n + 1]) <= n
  {
    var p := lines[..n + 1];
    assert p[n] == "";
    assert lines == p + lines[n + 1..];
    HeaderPrefix(p, lines[n + 1..]);
  }

  lemma SplitAfterBlank(head: string, body: string)
    ensures Split(head + "\n\n" + body, '\n') == Split(head, '\n') + [""] + Split(body, '\n')
  {
    assert head + "\n\n" + body == head + ['\n'] + (['\n'] + body);
    SplitAround(head, '\n', ['\n'] + body);
    assert ['\n'] + body == [] + ['\n'] + body;
    SplitAround([], '\n', body);
  }

  /** Lines after the first empty one do not change the header length. */
  lemma {:induction false} HeaderPrefix(a: seq<string>, b: seq<string>)
    requires "" in a
    ensures HeaderLength(a + b) == HeaderLength(a)
    decreases |a|
  {
    if a[0] != "" {
      assert (a + b)[1..] == a[1..] + b;
      HeaderPrefix(a[1..], b);
    }
  }

  /** The header lines of a commit with root tree `t` and parents `ps`. */
  function HeaderLines(t: string, ps: seq<string>): seq<string> {
    ["tree " + t] + ParentLines(ps)
  }

  function ParentLines(ps: seq<string>): (r: seq<string>)
    ensures |r| == |ps|
    ensures forall k :: 0 <= k < |ps| ==> r[k] == "parent " + ps[k]
    decreases |ps|
  {
    if ps == [] then [] else ["parent " + ps[0]] + ParentLines(ps[1..])
  }

  /** A value as it may stand in a header line: one line, no surrounding whitespace. */
  predicate HeaderValue(v: string) {
    '\n' !in v && (v == [] || (!IsJsWhitespace(v[0]) && !IsJsWhitespace(v[|v| - 1])))
  }

  /**
   * A commit text `tree T`, `parent P1` … `parent Pn`, a blank line, then any message parses to
   * tree `T` and parents `[P1, …, Pn]`, in order; with no parent line the list is empty.
   */
  lemma CommitHeaderRoundTrip(t: string, ps: seq<string>, message: string)
    requires HeaderValue(t) && forall k :: 0 <= k < |ps| ==> HeaderValue(ps[k])
    ensures ParseCommit(Strings.Join(HeaderLines(t, ps), '\n') + "\n\n" + message) == CommitRefs(t, ps)
  {
    var hs := HeaderLines(t, ps);
    var lines := Split(Strings.Join(hs, '\n') + "\n\n" + message, '\n');
    HeaderOfCommitText(t, ps, message);
    assert lines[..HeaderLength(lines)] == hs;
    TreeOfHeader(t, ps);
    ParentsOfHeader(t, ps);
  }

  /** The header of such a commit text is exactly its `tree ` and `parent ` lines. */
  lemma HeaderOfCommitText(t: string, ps: seq<string>, message: string)
    requires HeaderValue(t) && forall k :: 0 <= k < |ps| ==> HeaderValue(ps[k])
    ensures var lines := Split(Strings.Join(HeaderLines(t, ps), '\n') + "\n\n" + message, '\n');
      lines[..HeaderLength(lines)] == HeaderLines(t, ps)
  {
    var hs := HeaderLines(t, ps);
    forall k | 0 <= k < |hs| ensures '\n' !in hs[k] && hs[k] != "" {
      if k > 0 {
        assert hs[k] == "parent " + ps[k - 1];
      }
    }
    SplitJoin(hs, '\n');
    SplitAfterBlank(Strings.Join(hs, '\n'), message);
    HeaderPrefix(hs + [""], Split(message, '\n'));
    HeaderStopsAtBlank(hs);
  }

  /** The `tree ` line of such a header gives its tree. */
  lemma TreeOfHeader(t: string, ps: seq<string>)
    requires HeaderValue(t)
    ensures LastTree(HeaderLines(t, ps)) == t
  {
    forall k | 0 <= k < |ParentLines(ps)| ensures !IsTreeLine(ParentLines(ps)[k]) {
      assert ParentLines(ps)[k][..5] == "paren";
    }
    LastTreeKept(["tree " + t], ParentLines(ps));
    assert ("tree " + t)[5..] == t;
    TrimmedIsFixed(t);
    assert LastTree(["tree " + t]) == Trim(t);
  }

  /** The `parent ` lines of such a header give its parents, in order. */
  lemma ParentsOfHeader(t: string, ps: seq<string>)
    requires forall k :: 0 <= k < |ps| ==> HeaderValue(ps[k])
    ensures Parents(HeaderLines(t, ps)) == ps
  {
    assert IsTreeLine("tree " + t);
    FlatMapSingle(ParentOf, "tree " + t);
    FlatMapConcat(ParentOf, ["tree " + t], ParentLines(ps));
    ParentLinesParse(ps);
  }

  lemma {:induction false} HeaderStopsAtBlank(hs: seq<string>)
    requires forall k :: 0 <= k < |hs| ==> hs[k] != ""
    ensures HeaderLength(hs + [""]) == |hs|
    decreases |hs|
  {
    if hs != [] {
      assert (hs + [""])[1..] == hs[1..] + [""];
      HeaderStopsAtBlank(hs[1..]);
    }
  }

  /** One `parent v` line contributes exactly `v`. */
  lemma ParentLineOf(v: string)
    requires HeaderValue(v)
    ensures ParentOf("parent " + v) == [v]
  {
    var line := "parent " + v;
    TrimmedIsFixed(v);
    assert line[..5] == "paren" && line[..7] == "parent " && line[7..] == v;
  }

  lemma {:induction false} ParentLinesParse(ps: seq<string>)
    requires forall k :: 0 <= k < |ps| ==> HeaderValue(ps[k])
    ensures Parents(ParentLines(ps)) == ps
    decreases |ps|
  {
    if ps != [] {
      var single: seq<string> := ["parent " + ps[0]];
      assert Parents(single) == [ps[0]] by {
        ParentLineOf(ps[0]);
        FlatMapSingle(ParentOf, "parent " + ps[0]);
      }
      ParentLinesParse(ps[1..]);
      FlatMapConcat(ParentOf, single, ParentLines(ps[1..]));
      assert ParentLines(ps) == single + ParentLines(ps[1..]);
      assert ps == [ps[0]] + ps[1..];
    }
  }
}
