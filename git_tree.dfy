/**
 * `GitPlumbing.parseTreeContent` of `src/gitEngine.ts`: the content of a tree object is a run of
 * records `<mode> <path>\0<20 raw id bytes>`; parsing stops silently at a record it cannot
 * complete.
 */
module GitTree {
  import opened Wrappers
  import opened Bytes
  import opened GitObjects

  /** Number of raw id bytes ending each record. */
  const OidLength: nat := 20

  /** `"40000"` and `"040000"`, the two spellings of the directory mode. */
  const DirMode: seq<byte> := [0x34, 0x30, 0x30, 0x30, 0x30]
  const DirModePadded: seq<byte> := [0x30, 0x34, 0x30, 0x30, 0x30, 0x30]

  /** The kind guessed from a mode. */
  function ModeKind(mode: seq<byte>): ObjectType {
    if mode == DirMode || mode == DirModePadded then Tree else Blob
  }

  /** The raw fields of one record: the mode and path bytes and the 20 id bytes. */
  datatype Record = Record(mode: seq<byte>, path: seq<byte>, id: seq<byte>)

  /** What one record read yields: its raw fields and the cursor just after it. */
  datatype Step = Step(record: Record, next: nat)

  /** The entry the source builds from a record's fields: the id in hex, the kind from the mode. */
  function EntryOf(r: Record): TreeEntry {
    TreeEntry(r.mode, r.path, Hex(r.id), ModeKind(r.mode))
  }

  /**
   * Reading one record at `cursor` (one iteration of the source's loop): the mode runs up to the
   * first space, the path from there up to the first NUL, and the 20 id bytes follow; `None` when
   * a delimiter is missing or the id is cut short.
   */
  function ParseRecord(buf: seq<byte>, cursor: nat): Option<Step>
    requires cursor < |buf|
  {
    var sp := IndexOf(buf, Space, cursor);
    if sp == -1 then None
    else
      var nul := IndexOf(buf, Nul, sp + 1);
      if nul == -1 || nul + 1 + OidLength > |buf| then None
      else
        Some(Step(Record(buf[cursor..sp], buf[sp + 1..nul], buf[nul + 1..nul + 1 + OidLength]),
                  nul + 1 + OidLength))
  }

  /**
   * A successful read moves the cursor past the mode, the space, the path, the NUL and the 20 id
   * bytes, and stays inside the buffer.
   */
  lemma RecordAdvances(buf: seq<byte>, cursor: nat)
    requires cursor < |buf|
    ensures var r := ParseRecord(buf, cursor);
      r.Some? ==>
        && r.value.next == cursor + |r.value.record.mode| + |r.value.record.path| + 2 + OidLength
        && r.value.next <= |buf|
  {
  }

  /** The entries read from `cursor` on. */
  function ParseTreeFrom(buf: seq<byte>, cursor: nat): seq<TreeEntry>
    decreases |buf| - cursor
  {
    if cursor >= |buf| then []
    else
      match ParseRecord(buf, cursor)
      case None => []
      case Some(step) =>
        RecordAdvances(buf, cursor);
        [EntryOf(step.record)] + ParseTreeFrom(buf, step.next)
  }

  /** The entries of a tree object's content. */
  function ParseTree(buf: seq<byte>): seq<TreeEntry> {
    ParseTreeFrom(buf, 0)
  }

  /**
   * One pass of the loop body of `parseTreeContent`: find the space, then the NUL, then take the
   * 20 id bytes; `None` where the source breaks out of the loop.
   */
  method ReadRecord(buf: seq<byte>, start: nat) returns (r: Option<(TreeEntry, nat)>)
    requires start < |buf|
    ensures r == match ParseRecord(buf, start)
      case None => None
      case Some(step) => Some((EntryOf(step.record), step.next))
    ensures r.Some? ==> start < r.value.1 <= |buf|
  {
    var cursor := start;
    var spaceIndex := IndexOf(buf, Space, cursor);
    if spaceIndex == -1 {
      return None;
    }
    var mode := buf[cursor..spaceIndex];
    cursor := spaceIndex + 1;

    var nullIndex := IndexOf(buf, Nul, cursor);
    if nullIndex == -1 {
      return None;
    }
    var filename := buf[cursor..nullIndex];
    cursor := nullIndex + 1;

    if cursor + OidLength > |buf| {
      return None;
    }
    var oid := Hex(buf[cursor..cursor + OidLength]);
    cursor := cursor + OidLength;

    var kind := Blob;
    if mode == DirMode || mode == DirModePadded {
      kind := Tree;
    }
    return Some((TreeEntry(mode, filename, oid, kind), cursor));
  }

  /** `parseTreeContent`: the cursor loop of the source, pushing one entry per complete record. */
  method ParseTreeContent(buf: seq<byte>) returns (entries: seq<TreeEntry>)
    ensures entries == ParseTree(buf)
  {
    entries := [];
    var cursor: nat := 0;
    while cursor < |buf|
      invariant cursor <= |buf|
      invariant entries + ParseTreeFrom(buf, cursor) == ParseTree(buf)
      decreases |buf| - cursor
    {
      var step := ReadRecord(buf, cursor);
      if step.None? {
        break;
      }
      assert ParseTreeFrom(buf, cursor) == [step.value.0] + ParseTreeFrom(buf, step.value.1);
      entries := entries + [step.value.0];
      cursor := step.value.1;
    }
  }

  // ---------------------------------------------------------------- properties

  /** The record read once both delimiters are known: its fields are the bytes between them. */
  lemma RecordAt(buf: seq<byte>, cursor: nat, sp: int, nul: int, mode: seq<byte>, path: seq<byte>,
                 id: seq<byte>)
    requires cursor < |buf| && sp == IndexOf(buf, Space, cursor) && sp != -1
    requires nul == IndexOf(buf, Nul, sp + 1) && nul != -1 && nul + 1 + OidLength <= |buf|
    requires mode == buf[cursor..sp] && path == buf[sp + 1..nul]
    requires id == buf[nul + 1..nul + 1 + OidLength]
    ensures ParseRecord(buf, cursor) == Some(Step(Record(mode, path, id), nul + 1 + OidLength))
  {
  }

  /** A successful record read takes as mode the bytes up to the first space after the cursor. */
  lemma RecordMode(buf: seq<byte>, cursor: nat)
    requires cursor < |buf| && ParseRecord(buf, cursor).Some?
    ensures
      var r := ParseRecord(buf, cursor).value.record;
      && buf[cursor..cursor + |r.mode|] == r.mode && Space !in r.mode
      && buf[cursor + |r.mode|] == Space
  {
    IndexOfFirst(buf, Space, cursor);
  }

  /**
   * A successful record read takes as path the bytes from just after the space up to the first
   * NUL, and as id the 20 bytes after it.
   */
  lemma RecordPath(buf: seq<byte>, cursor: nat)
    requires cursor < |buf| && ParseRecord(buf, cursor).Some?
    ensures
      var step := ParseRecord(buf, cursor).value;
      var start := cursor + |step.record.mode| + 1;
      && buf[start..start + |step.record.path|] == step.record.path && Nul !in step.record.path
      && buf[start + |step.record.path|] == Nul
      && step.record.id == buf[step.next - OidLength..step.next] && |step.record.id| == OidLength
  {
    var sp := IndexOf(buf, Space, cursor);
    IndexOfFirst(buf, Nul, sp + 1);
  }

  /** Every entry of any buffer: a space-free mode, a NUL-free path, a 40-digit lowercase oid. */
  lemma {:induction false} ParsedEntriesWellFormed(buf: seq<byte>, cursor: nat)
    ensures forall e :: e in ParseTreeFrom(buf, cursor) ==>
      && Space !in e.mode && Nul !in e.path
      && |e.oid| == 40 && IsLowerHex(e.oid)
      && (e.kind == Tree <==> e.mode == DirMode || e.mode == DirModePadded)
      && (e.kind == Tree || e.kind == Blob)
    decreases |buf| - cursor
  {
    if cursor < |buf| {
      match ParseRecord(buf, cursor)
      case None =>
      case Some(step) =>
        RecordAdvances(buf, cursor);
        RecordMode(buf, cursor);
        RecordPath(buf, cursor);
        HexRoundTrip(step.record.id);
        ParsedEntriesWellFormed(buf, step.next);
    }
  }

  predicate WellFormedRecord(r: Record) {
    Space !in r.mode && Nul !in r.path && |r.id| == OidLength
  }

  /** The bytes of one record. */
  function EncodeRecord(r: Record): seq<byte> {
    r.mode + [Space] + r.path + [Nul] + r.id
  }

  /** The content of a tree holding `rs` in order. */
  function EncodeTree(rs: seq<Record>): seq<byte>
    decreases |rs|
  {
    if rs == [] then [] else EncodeRecord(rs[0]) + EncodeTree(rs[1..])
  }

  function EntriesOf(rs: seq<Record>): seq<TreeEntry>
    decreases |rs|
  {
    if rs == [] then [] else [EntryOf(rs[0])] + EntriesOf(rs[1..])
  }

  lemma SliceBehind(p: seq<byte>, s: seq<byte>, a: nat, b: nat)
    requires a <= b <= |s|
    ensures (p + s)[|p| + a..|p| + b] == s[a..b]
  {
  }

  /** Reading a record behind a prefix reads the same record, with the cursor shifted. */
  lemma RecordShift(p: seq<byte>, s: seq<byte>, cursor: nat)
    requires cursor < |s|
    ensures ParseRecord(p + s, |p| + cursor) ==
      match ParseRecord(s, cursor)
      case None => None
      case Some(step) => Some(Step(step.record, |p| + step.next))
  {
    IndexOfShift(p, s, Space, cursor);
    var sp := IndexOf(s, Space, cursor);
    if sp != -1 {
      IndexOfShift(p, s, Nul, sp + 1);
      var nul := IndexOf(s, Nul, sp + 1);
      if nul != -1 && nul + 1 + OidLength <= |s| {
        RecordAt(s, cursor, sp, nul, s[cursor..sp], s[sp + 1..nul], s[nul + 1..nul + 1 + OidLength]);
        RecordShiftFound(p, s, cursor, sp, nul);
      }
    }
  }

  /** The record behind a prefix once both delimiters are found: the same fields, shifted. */
  lemma RecordShiftFound(p: seq<byte>, s: seq<byte>, cursor: nat, sp: int, nul: int)
    requires cursor <= sp < nul && nul + 1 + OidLength <= |s|
    requires IndexOf(p + s, Space, |p| + cursor) == |p| + sp
    requires IndexOf(p + s, Nul, |p| + sp + 1) == |p| + nul
    ensures ParseRecord(p + s, |p| + cursor) ==
      Some(Step(Record(s[cursor..sp], s[sp + 1..nul], s[nul + 1..nul + 1 + OidLength]),
                |p| + nul + 1 + OidLength))
  {
    var buf := p + s;
    var c, i, j := |p| + cursor, |p| + sp, |p| + nul;
    RecordFound(buf, c, i, j);
    SliceBehind(p, s, cursor, sp);
    SliceBehind(p, s, sp + 1, nul);
    SliceBehind(p, s, nul + 1, nul + 1 + OidLength);
  }

  /** The record read once both delimiters are known. */
  lemma RecordFound(buf: seq<byte>, cursor: nat, sp: int, nul: int)
    requires cursor <= sp < nul && nul + 1 + OidLength <= |buf|
    requires IndexOf(buf, Space, cursor) == sp && IndexOf(buf, Nul, sp + 1) == nul
    ensures ParseRecord(buf, cursor) ==
      Some(Step(Record(buf[cursor..sp], buf[sp + 1..nul], buf[nul + 1..nul + 1 + OidLength]),
                nul + 1 + OidLength))
  {
  }

  /** Parsing behind a prefix that ends at the cursor is unaffected by the prefix. */
  lemma {:induction false} ParseTreeShift(p: seq<byte>, s: seq<byte>, cursor: nat)
    ensures ParseTreeFrom(p + s, |p| + cursor) == ParseTreeFrom(s, cursor)
    decreases |s| - cursor
  {
    if cursor < |s| {
      RecordShift(p, s, cursor);
      match ParseRecord(s, cursor)
      case None =>
      case Some(step) =>
        RecordAdvances(s, cursor);
        ParseTreeShift(p, s, step.next);
    }
  }

  /** One well-formed record in front of any bytes is read whole, and nothing more. */
  lemma RecordReadsBack(r: Record, tail: seq<byte>)
    requires WellFormedRecord(r)
    ensures ParseRecord(EncodeRecord(r) + tail, 0) == Some(Step(r, |EncodeRecord(r)|))
  {
    var buf := EncodeRecord(r) + tail;
    var m, p := |r.mode|, |r.path|;
    assert buf[m] == Space && buf[..m] == r.mode;
    IndexOfAt(buf, Space, 0, m);
    assert buf[m + 1 + p] == Nul && buf[m + 1..m + 1 + p] == r.path;
    IndexOfAt(buf, Nul, m + 1, m + 1 + p);
    assert buf[m + 2 + p..m + 2 + p + OidLength] == r.id;
    RecordAt(buf, 0, m, m + 1 + p, r.mode, r.path, r.id);
  }

  /** A well-formed record in front of any bytes contributes its entry, then parsing goes on. */
  lemma ParseAfterRecord(r: Record, rest: seq<byte>)
    requires WellFormedRecord(r)
    ensures ParseTree(EncodeRecord(r) + rest) == [EntryOf(r)] + ParseTree(rest)
  {
    RecordReadsBack(r, rest);
    ParseAfterStep(EncodeRecord(r), rest, r);
  }

  /** When the first read covers exactly `head`, parsing goes on in what follows it. */
  lemma ParseAfterStep(head: seq<byte>, rest: seq<byte>, r: Record)
    requires head != [] && ParseRecord(head + rest, 0) == Some(Step(r, |head|))
    ensures ParseTree(head + rest) == [EntryOf(r)] + ParseTree(rest)
  {
    ParseTreeShift(head, rest, 0);
    assert |head| + 0 == |head|;
  }

  /**
   * Well-formed records followed by anything parse to their entries, in order, followed by what
   * the rest parses to.
   */
  lemma {:induction false} ParseEncodedThen(rs: seq<Record>, tail: seq<byte>)
    requires forall i :: 0 <= i < |rs| ==> WellFormedRecord(rs[i])
    ensures ParseTree(EncodeTree(rs) + tail) == EntriesOf(rs) + ParseTree(tail)
    decreases |rs|
  {
    if rs == [] {
      assert EncodeTree(rs) + tail == tail;
    } else {
      var rest := EncodeTree(rs[1..]) + tail;
      assert ParseTree(EncodeTree(rs) + tail) == [EntryOf(rs[0])] + ParseTree(rest) by {
        assert EncodeTree(rs) + tail == EncodeRecord(rs[0]) + rest;
        ParseAfterRecord(rs[0], rest);
      }
      ParseEncodedThen(rs[1..], tail);
    }
  }

  /** Tree round trip: K well-formed records parse to exactly those K entries in order. */
  lemma TreeRoundTrip(rs: seq<Record>)
    requires forall i :: 0 <= i < |rs| ==> WellFormedRecord(rs[i])
    ensures ParseTree(EncodeTree(rs)) == EntriesOf(rs)
  {
    ParseEncodedThen(rs, []);
    assert EncodeTree(rs) + [] == EncodeTree(rs);
  }

  /** A proper prefix of one record yields no entry at all. */
  lemma PartialRecordYieldsNothing(r: Record, n: nat)
    requires WellFormedRecord(r) && n < |EncodeRecord(r)|
    ensures ParseTree(EncodeRecord(r)[..n]) == []
  {
    var m, p := |r.mode|, |r.path|;
    if n == 0 {
    } else if n <= m {
      CutInMode(r, n);
    } else if n <= m + 1 + p {
      CutInPath(r, n);
    } else {
      CutInId(r, n);
    }
  }

  /** Cut inside the mode: no space to be found. */
  lemma CutInMode(r: Record, n: nat)
    requires WellFormedRecord(r) && 0 < n <= |r.mode|
    ensures IndexOf(EncodeRecord(r)[..n], Space, 0) == -1
  {
    var part := EncodeRecord(r)[..n];
    assert forall k :: 0 <= k < n ==> part[k] == r.mode[k];
    IndexOfFirst(part, Space, 0);
  }

  /** Cut inside the path (or just after the space): the space is found but no NUL. */
  lemma CutInPath(r: Record, n: nat)
    requires WellFormedRecord(r) && |r.mode| < n <= |r.mode| + 1 + |r.path|
    ensures IndexOf(EncodeRecord(r)[..n], Space, 0) == |r.mode|
    ensures IndexOf(EncodeRecord(r)[..n], Nul, |r.mode| + 1) == -1
  {
    var part := EncodeRecord(r)[..n];
    var m := |r.mode|;
    assert forall k :: 0 <= k < m ==> part[k] == r.mode[k];
    assert part[m] == Space;
    IndexOfAt(part, Space, 0, m);
    assert forall k :: m + 1 <= k < n ==> part[k] == r.path[k - m - 1];
    IndexOfFirst(part, Nul, m + 1);
  }

  /** Cut inside the id: both delimiters are found but the id is cut short. */
  lemma CutInId(r: Record, n: nat)
    requires WellFormedRecord(r) && |r.mode| + 1 + |r.path| < n < |EncodeRecord(r)|
    ensures IndexOf(EncodeRecord(r)[..n], Space, 0) == |r.mode|
    ensures IndexOf(EncodeRecord(r)[..n], Nul, |r.mode| + 1) == |r.mode| + 1 + |r.path|
  {
    var part := EncodeRecord(r)[..n];
    var m, p := |r.mode|, |r.path|;
    assert forall k :: 0 <= k < m ==> part[k] == r.mode[k];
    assert part[m] == Space;
    IndexOfAt(part, Space, 0, m);
    assert forall k :: m + 1 <= k < m + 1 + p ==> part[k] == r.path[k - m - 1];
    assert part[m + 1 + p] == Nul;
    IndexOfAt(part, Nul, m + 1, m + 1 + p);
  }

  /**
   * A buffer cut in the middle of its (k+1)-th record yields exactly the first k entries and no
   * partial entry.
   */
  lemma TruncatedTree(rs: seq<Record>, k: nat, n: nat)
    requires forall i :: 0 <= i < |rs| ==> WellFormedRecord(rs[i])
    requires k < |rs| && n < |EncodeRecord(rs[k])|
    ensures ParseTree(EncodeTree(rs[..k]) + EncodeRecord(rs[k])[..n]) == EntriesOf(rs[..k])
  {
    ParseEncodedThen(rs[..k], EncodeRecord(rs[k])[..n]);
    PartialRecordYieldsNothing(rs[k], n);
  }
}
