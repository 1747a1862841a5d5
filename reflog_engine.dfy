/**
 * `ReflogHunter` (`src/reflogEngine.ts`): reading the entries of `.git/logs/HEAD`, latest first,
 * and keeping one entry per commit reached.
 */
module ReflogEngine {
  import opened Wrappers
  import opened Strings
  import opened Seqs
  import opened ReflogLine

  /** `ReflogEntry`: the hashes, the user, the Unix timestamp, the action and the message. */
  datatype ReflogEntry = ReflogEntry(oldSha: string, newSha: string, user: string, timestamp: nat,
                                     action: string, message: string)

  /** The entry one line yields, or `None` when the line pattern does not match. */
  function LineEntry(line: string): Option<ReflogEntry> {
    match MatchLine(line)
    case None => None
    case Some(g) =>
      MatchWellFormed(line);
      Some(ReflogEntry(g.oldSha, g.newSha, g.User(), DigitsValue(g.Timestamp()), g.Action(), g.Message()))
  }

  /** `line => match ? {…} : null`, with the `null` results filtered out afterwards. */
  function LineEntries(line: string): seq<ReflogEntry> {
    match LineEntry(line)
    case None => []
    case Some(e) => [e]
  }

  /** `lines.map(…).filter(entry => entry !== null)`: the entries of the lines that match, in order. */
  function Entries(lines: seq<string>): seq<ReflogEntry> {
    FlatMap(LineEntries, lines)
  }

  /**
   * `ReflogHunter.hunt`: the entries of the log, latest first. `log` is the text of
   * `.git/logs/HEAD`, or `None` when it does not exist or cannot be read.
   */
  function Hunt(log: Option<string>): seq<ReflogEntry> {
    match log
    case None => []
    case Some(content) => Reverse(Entries(TrimmedLines(content)))
  }

  // ---------------------------------------------------------------- properties of hunt

  /** The entries of some lines then others are those of the first lines then those of the others. */
  lemma EntriesConcat(a: seq<string>, b: seq<string>)
    ensures Entries(a + b) == Entries(a) + Entries(b)
  {
    FlatMapConcat(LineEntries, a, b);
  }

  /** Every line yields at most one entry. */
  lemma {:induction false} EntriesBound(lines: seq<string>)
    ensures |Entries(lines)| <= |lines|
    decreases |lines|
  {
    if lines != [] {
      var init := lines[..|lines| - 1];
      assert lines == init + [lines[|lines| - 1]];
      EntriesConcat(init, [lines[|lines| - 1]]);
      FlatMapSingle(LineEntries, lines[|lines| - 1]);
      EntriesBound(init);
    }
  }

  /** Every entry of a line has two 40-digit lowercase hashes. */
  lemma LineEntryShas(line: string)
    ensures LineEntry(line).Some? ==> IsSha(LineEntry(line).value.oldSha) && IsSha(LineEntry(line).value.newSha)
  {
    MatchWellFormed(line);
  }

  /** An entry is found exactly when some line yields it. */
  lemma EntriesFrom(lines: seq<string>)
    ensures forall e :: e in Entries(lines) <==> exists i :: 0 <= i < |lines| && LineEntry(lines[i]) == Some(e)
  {
    FlatMapMember(LineEntries, lines);
    assert forall l, e :: e in LineEntries(l) <==> LineEntry(l) == Some(e);
  }

  /** A missing log, and a log of only whitespace, have no entries. */
  lemma HuntEmpty(content: string)
    requires Trim(content) == ""
    ensures Hunt(None) == [] && Hunt(Some(content)) == []
  {
    assert Split("", '\n') == [""];
    assert MatchLine("") == None;
    FlatMapSingle(LineEntries, "");
  }

  /** At most one entry per line of the trimmed log. */
  lemma HuntBound(content: string)
    ensures |Hunt(Some(content))| <= |TrimmedLines(content)|
  {
    EntriesBound(TrimmedLines(content));
  }

  /**
   * Latest first: when the log's lines are earlier lines `a` followed by later lines `b`, the
   * entries of `b` come first, each part itself in reverse order.
   */
  lemma HuntLatestFirst(content: string, a: seq<string>, b: seq<string>)
    requires TrimmedLines(content) == a + b
    ensures Hunt(Some(content)) == Reverse(Entries(b)) + Reverse(Entries(a))
  {
    EntriesConcat(a, b);
    ReverseConcat(Entries(a), Entries(b));
  }

  /**
   * Exactly the entries of matching lines appear, and each has two 40-digit lowercase hashes.
   */
  lemma HuntEntries(content: string)
    ensures forall e :: e in Hunt(Some(content)) <==>
      exists i :: 0 <= i < |TrimmedLines(content)| && LineEntry(TrimmedLines(content)[i]) == Some(e)
    ensures forall e :: e in Hunt(Some(content)) ==> IsSha(e.oldSha) && IsSha(e.newSha)
  {
    var lines := TrimmedLines(content);
    EntriesFrom(lines);
    ReverseMember(Entries(lines));
    forall e | e in Hunt(Some(content))
      ensures IsSha(e.oldSha) && IsSha(e.newSha)
    {
      var i :| 0 <= i < |lines| && LineEntry(lines[i]) == Some(e);
      LineEntryShas(lines[i]);
    }
  }

  /** A line spelled from canonical groups yields the entry of those groups. */
  lemma LineEntryRoundTrip(g: Groups)
    requires Canonical(g)
    ensures LineEntry(Reassemble(g)) ==
      Some(ReflogEntry(g.oldSha, g.newSha, g.User(), DigitsValue(g.Timestamp()), g.Action(), g.Message()))
  {
    LineRoundTrip(g);
  }

  // ---------------------------------------------------------------- findGhosts

  /** The `newSha` of every entry. */
  function NewShas(xs: seq<ReflogEntry>): set<string>
    decreases |xs|
  {
    if xs == [] then {} else {xs[0].newSha} + NewShas(xs[1..])
  }

  /**
   * The `filter` of `findGhosts` continued from a `seen` set: an entry is kept when its `newSha`
   * has not been seen, and its `newSha` is seen from then on.
   */
  function Dedup(xs: seq<ReflogEntry>, seen: set<string>): seq<ReflogEntry>
    decreases |xs|
  {
    if xs == [] then []
    else if xs[0].newSha in seen then Dedup(xs[1..], seen)
    else [xs[0]] + Dedup(xs[1..], seen + {xs[0].newSha})
  }

  /** What `findGhosts` returns. */
  function Ghosts(entries: seq<ReflogEntry>): seq<ReflogEntry> {
    Dedup(entries, {})
  }

  /** `ReflogHunter.findGhosts`: the entries whose `newSha` did not occur earlier. */
  method FindGhosts(entries: seq<ReflogEntry>) returns (ghosts: seq<ReflogEntry>)
    ensures ghosts == Ghosts(entries)
  {
    var seen: set<string> := {};
    ghosts := [];
    for i := 0 to |entries|
      invariant ghosts + Dedup(entries[i..], seen) == Ghosts(entries)
    {
      var e := entries[i];
      assert entries[i..][1..] == entries[i + 1..];
      if e.newSha !in seen {
        seen := seen + {e.newSha};
        ghosts := ghosts + [e];
      }
    }
    assert entries[|entries|..] == [];
  }

  /** No two entries share a `newSha`. */
  predicate DistinctShas(xs: seq<ReflogEntry>) {
    forall i, j :: 0 <= i < j < |xs| ==> xs[i].newSha != xs[j].newSha
  }

  lemma {:induction false} NewShasHas(xs: seq<ReflogEntry>, s: string)
    ensures s in NewShas(xs) <==> exists i :: 0 <= i < |xs| && xs[i].newSha == s
    decreases |xs|
  {
    if xs != [] {
      NewShasHas(xs[1..], s);
      if s in NewShas(xs[1..]) {
        var i :| 0 <= i < |xs[1..]| && xs[1..][i].newSha == s;
        assert xs[i + 1].newSha == s;
      }
      if exists i :: 0 <= i < |xs| && xs[i].newSha == s {
        var i :| 0 <= i < |xs| && xs[i].newSha == s;
        if i > 0 {
          assert xs[1..][i - 1].newSha == s;
        }
      }
    }
  }

  /**
   * From a `seen` set: the result keeps the order of the input, its `newSha`s are distinct and
   * unseen, and they are exactly the input's `newSha`s less the seen ones.
   */
  lemma {:induction false} DedupFacts(xs: seq<ReflogEntry>, seen: set<string>)
    ensures IsSubsequence(Dedup(xs, seen), xs)
    ensures DistinctShas(Dedup(xs, seen))
    ensures NewShas(Dedup(xs, seen)) == NewShas(xs) - seen
    decreases |xs|
  {
    if xs != [] {
      var x := xs[0];
      if x.newSha in seen {
        DedupFacts(xs[1..], seen);
      } else {
        var rest := Dedup(xs[1..], seen + {x.newSha});
        DedupFacts(xs[1..], seen + {x.newSha});
        var d := [x] + rest;
        assert d[1..] == rest;
        forall i, j | 0 <= i < j < |d|
          ensures d[i].newSha != d[j].newSha
        {
          if i == 0 {
            assert d[j] == rest[j - 1];
            NewShasHas(rest, d[j].newSha);
          }
        }
      }
    }
  }

  /**
   * Distinct `newSha`s none of which has been seen come through unchanged.
   */
  lemma {:induction false} DedupDistinct(xs: seq<ReflogEntry>, seen: set<string>)
    requires DistinctShas(xs) && NewShas(xs) !! seen
    ensures Dedup(xs, seen) == xs
    decreases |xs|
  {
    if xs != [] {
      var x, rest := xs[0], xs[1..];
      assert x.newSha in NewShas(xs) && NewShas(rest) <= NewShas(xs);
      assert DistinctShas(rest) by {
        forall i, j | 0 <= i < j < |rest|
          ensures rest[i].newSha != rest[j].newSha
        {
          assert rest[i] == xs[i + 1] && rest[j] == xs[j + 1];
        }
      }
      NewShasHas(rest, x.newSha);
      assert forall i :: 0 <= i < |rest| ==> rest[i] == xs[i + 1];
      DedupDistinct(rest, seen + {x.newSha});
    }
  }

  /**
   * `findGhosts` keeps entries in their order, one per `newSha`, and loses no `newSha`; every
   * ghost is an entry of the input, and applying it again changes nothing.
   */
  lemma GhostsFacts(entries: seq<ReflogEntry>)
    ensures IsSubsequence(Ghosts(entries), entries)
    ensures forall e :: e in Ghosts(entries) ==> e in entries
    ensures DistinctShas(Ghosts(entries))
    ensures NewShas(Ghosts(entries)) == NewShas(entries)
    ensures Ghosts(Ghosts(entries)) == Ghosts(entries)
  {
    DedupFacts(entries, {});
    SubsequenceElements(Ghosts(entries), entries);
    DedupDistinct(Ghosts(entries), {});
  }

  /**
   * An independent statement of which entry is kept: reading the entries from the back, the last
   * one stays exactly when its `newSha` does not occur before it.
   */
  function FirstOccurrences(xs: seq<ReflogEntry>): seq<ReflogEntry>
    decreases |xs|
  {
    if xs == [] then []
    else
      var init, last := xs[..|xs| - 1], xs[|xs| - 1];
      FirstOccurrences(init) + (if last.newSha in NewShas(init) then [] else [last])
  }

  lemma {:induction false} DedupAppend(xs: seq<ReflogEntry>, x: ReflogEntry, seen: set<string>)
    ensures Dedup(xs + [x], seen) ==
      Dedup(xs, seen) + (if x.newSha in seen + NewShas(xs) then [] else [x])
    decreases |xs|
  {
    if xs == [] {
      assert [] + [x] == [x];
      assert [x][1..] == [];
    } else {
      assert (xs + [x])[0] == xs[0];
      assert (xs + [x])[1..] == xs[1..] + [x];
      if xs[0].newSha in seen {
        DedupAppend(xs[1..], x, seen);
      } else {
        DedupAppend(xs[1..], x, seen + {xs[0].newSha});
      }
    }
  }

  /** `findGhosts` keeps exactly the first entry of each `newSha`. */
  lemma {:induction false} GhostsKeepFirst(entries: seq<ReflogEntry>)
    ensures Ghosts(entries) == FirstOccurrences(entries)
    decreases |entries|
  {
    if entries != [] {
      var init, last := entries[..|entries| - 1], entries[|entries| - 1];
      assert entries == init + [last];
      DedupAppend(init, last, {});
      GhostsKeepFirst(init);
    }
  }
}
