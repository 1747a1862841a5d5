/**
 * `GitPlumbing.readObject`, `isBinary` and `readReflog` of `src/gitEngine.ts`: the header split of
 * an inflated loose object `<type> <size>\0<content>`, the classification of its type tag, the
 * per-kind decoding of its content, the NUL-byte binary heuristic, and the simple space-split
 * reflog reader.
 *
 * Reading the object file and zlib inflation are parameters: the file is `None` when it does not
 * exist, and `inflate` is `None` where `zlib.inflateSync` throws. UTF-8 decoding is the parameter
 * `utf8`.
 */
module GitEngine {
  import opened Wrappers
  import opened Bytes
  import opened Strings
  import opened Seqs
  import opened GitObjects
  import opened GitTree
  import opened GitCommit

  // ---------------------------------------------------------------- header

  /** The three parts of an inflated object: type tag, size field, content. */
  datatype Header = Header(tag: seq<byte>, sizeField: seq<byte>, content: seq<byte>)

  /** The bytes of an object with header `h`. */
  function EncodeHeader(h: Header): seq<byte> {
    h.tag + [Space] + h.sizeField + [Nul] + h.content
  }

  /**
   * The header split of `readObject`: the first space, then the first NUL at or after it; the tag
   * is what precedes the space, the size field what lies between, the content all that follows
   * the NUL. `None` where the source throws `Invalid Git object format`.
   */
  function SplitHeader(buf: seq<byte>): Option<Header> {
    var sp := IndexOf(buf, Space, 0);
    if sp == -1 then None
    else
      var nul := IndexOf(buf, Nul, sp);
      // `buf[sp]` is the space, so the NUL lies strictly after it
      IndexOfFirst(buf, Space, 0);
      IndexOfFirst(buf, Nul, sp);
      if nul == -1 then None
      else Some(Header(buf[..sp], buf[sp + 1..nul], buf[nul + 1..]))
  }

  /** The split fails exactly when there is no space, or no NUL from the first space on. */
  lemma SplitHeaderFails(buf: seq<byte>)
    ensures SplitHeader(buf).None? <==>
      Space !in buf || forall k :: IndexOf(buf, Space, 0) <= k < |buf| && 0 <= k ==> buf[k] != Nul
  {
    var sp := IndexOf(buf, Space, 0);
    IndexOfFirst(buf, Space, 0);
    if sp != -1 {
      IndexOfFirst(buf, Nul, sp);
    }
  }

  /** A successful split takes the object apart: a space-free tag, a NUL-free size field. */
  lemma SplitHeaderShape(buf: seq<byte>)
    requires SplitHeader(buf).Some?
    ensures var h := SplitHeader(buf).value;
      EncodeHeader(h) == buf && Space !in h.tag && Nul !in h.sizeField
  {
    var sp := IndexOf(buf, Space, 0);
    IndexOfFirst(buf, Space, 0);
    var nul := IndexOf(buf, Nul, sp);
    IndexOfFirst(buf, Nul, sp);
    var h := SplitHeader(buf).value;
    assert Space !in h.tag by {
      forall k | 0 <= k < sp ensures h.tag[k] != Space { assert h.tag[k] == buf[k]; }
    }
    assert Nul !in h.sizeField by {
      forall k | 0 <= k < |h.sizeField| ensures h.sizeField[k] != Nul {
        assert h.sizeField[k] == buf[sp + 1 + k];
      }
    }
    assert buf == buf[..sp] + [Space] + buf[sp + 1..nul] + [Nul] + buf[nul + 1..];
  }

  /** Header round trip: a space-free tag and a NUL-free size field are split back out exactly. */
  lemma SplitHeaderRoundTrip(h: Header)
    requires Space !in h.tag && Nul !in h.sizeField
    ensures SplitHeader(EncodeHeader(h)) == Some(h)
  {
    var buf := EncodeHeader(h);
    var t, n := |h.tag|, |h.sizeField|;
    assert IndexOf(buf, Space, 0) == t by {
      assert forall k :: 0 <= k < t ==> buf[k] == h.tag[k];
      IndexOfAt(buf, Space, 0, t);
    }
    assert IndexOf(buf, Nul, t) == t + 1 + n by {
      assert buf[t] == Space;
      assert forall k :: t < k < t + 1 + n ==> buf[k] == h.sizeField[k - t - 1];
      IndexOfAt(buf, Nul, t, t + 1 + n);
    }
    assert buf[..t] == h.tag;
    assert buf[t + 1..t + 1 + n] == h.sizeField;
    assert buf[t + 2 + n..] == h.content;
  }

  // ---------------------------------------------------------------- type tag

  /** The ASCII bytes of `blob`, `tree`, `commit` and `tag`. */
  const BlobTag: seq<byte> := [0x62, 0x6c, 0x6f, 0x62]
  const TreeTag: seq<byte> := [0x74, 0x72, 0x65, 0x65]
  const CommitTag: seq<byte> := [0x63, 0x6f, 0x6d, 0x6d, 0x69, 0x74]
  const TagTag: seq<byte> := [0x74, 0x61, 0x67]

  /** The `switch (typeStr)` of `readObject`: the four known tags, anything else is `Unknown`. */
  function Classify(tag: seq<byte>): ObjectType {
    if tag == BlobTag then Blob
    else if tag == TreeTag then Tree
    else if tag == CommitTag then Commit
    else if tag == TagTag then Tag
    else Unknown
  }

  /** The tag a writer puts in front of an object of a known kind. */
  function TagOf(k: ObjectType): seq<byte>
    requires k != Unknown
  {
    match k
    case Blob => BlobTag
    case Tree => TreeTag
    case Commit => CommitTag
    case Tag => TagTag
  }

  /**
   * Classification is exact: a known kind's tag classifies back to it, and `Unknown` is what every
   * other tag (any case variant, any padding) gets.
   */
  lemma ClassifyExact(tag: seq<byte>)
    ensures Classify(tag) != Unknown ==> TagOf(Classify(tag)) == tag
    ensures Classify(tag) == Unknown <==>
      forall k: ObjectType :: k != Unknown ==> tag != TagOf(k)
  {
    if Classify(tag) == Unknown {
      forall k: ObjectType | k != Unknown ensures tag != TagOf(k) {
        match k
        case Blob =>
        case Tree =>
        case Commit =>
        case Tag =>
      }
    } else {
      assert TagOf(Classify(tag)) == tag;
    }
  }

  /** A known kind's tag classifies back to that kind. */
  lemma ClassifyTagOf(k: ObjectType)
    requires k != Unknown
    ensures Classify(TagOf(k)) == k
  {
    match k
    case Blob =>
    case Tree =>
      assert TreeTag[0] != BlobTag[0];
    case Commit =>
      assert |CommitTag| != |BlobTag| && |CommitTag| != |TreeTag|;
    case Tag =>
      assert |TagTag| != |BlobTag| && |TagTag| != |TreeTag| && |TagTag| != |CommitTag|;
  }

  // ---------------------------------------------------------------- binary heuristic

  /** How many leading bytes `isBinary` inspects. */
  const ScanLimit: nat := 8000

  /** How many bytes are inspected: `Math.min(buffer.length, 8000)`. */
  function ScanLength(buf: seq<byte>): (n: nat)
    ensures n <= |buf| && n <= ScanLimit
    ensures n == |buf| || n == ScanLimit
  {
    if |buf| < ScanLimit then |buf| else ScanLimit
  }

  /** The heuristic: a zero byte among the first `min(length, 8000)` bytes. */
  predicate LooksBinary(buf: seq<byte>) {
    exists i :: 0 <= i < ScanLength(buf) && buf[i] == Nul
  }

  /** `isBinary`: the source's indexed loop with early return. */
  method IsBinary(buf: seq<byte>) returns (b: bool)
    ensures b == LooksBinary(buf)
  {
    var checkLen := if |buf| < ScanLimit then |buf| else ScanLimit;
    for i := 0 to checkLen
      invariant forall k :: 0 <= k < i ==> buf[k] != Nul
    {
      if buf[i] == Nul {
        return true;
      }
    }
    return false;
  }

  /** Bytes past the first 8000 never matter: a NUL there is ignored. */
  lemma BinaryIgnoresTail(head: seq<byte>, tail: seq<byte>)
    requires |head| >= ScanLimit
    ensures LooksBinary(head + tail) == LooksBinary(head)
  {
    assert forall i :: 0 <= i < ScanLimit ==> (head + tail)[i] == head[i];
  }

  /** Below the limit, a single zero byte anywhere makes the content binary. */
  lemma BinaryShortIff(buf: seq<byte>)
    requires |buf| <= ScanLimit
    ensures LooksBinary(buf) <==> Nul in buf
  {
    if Nul in buf {
      var i :| 0 <= i < |buf| && buf[i] == Nul;
    }
  }

  // ---------------------------------------------------------------- decoding

  /** What a blob, tag or unknown object shows: `'<Binary Data>'` or the decoded text. */
  function ContentOf(bytes: seq<byte>, utf8: seq<byte> -> string): Content {
    if LooksBinary(bytes) then BinaryData else Text(utf8(bytes))
  }

  /** The per-kind dispatch of `readObject` once the header is split. */
  function Dispatch(oid: string, h: Header, utf8: seq<byte> -> string): GitObject {
    match Classify(h.tag)
    case Tree => TreeObject(oid, h.sizeField, ParseTree(h.content))
    case Commit =>
      var text := utf8(h.content);
      var refs := ParseCommit(text);
      CommitObject(oid, h.sizeField, text, refs.tree, refs.parents)
    case Blob => BlobObject(oid, h.sizeField, ContentOf(h.content, utf8))
    case Tag => TagObject(oid, h.sizeField, ContentOf(h.content, utf8))
    case Unknown => UnknownObject(oid, h.sizeField, ContentOf(h.content, utf8))
  }

  /** `readObject` from the header split on: the decoding of an already inflated buffer. */
  function DecodeInflated(oid: string, buf: seq<byte>, utf8: seq<byte> -> string): Option<GitObject> {
    match SplitHeader(buf)
    case None => None
    case Some(h) => Some(Dispatch(oid, h, utf8))
  }

  /**
   * `readObject`: `None` when the object file is absent (`fs.existsSync` false), when inflation
   * fails, and when the header is malformed.
   */
  function ReadObject(oid: string, file: Option<seq<byte>>, inflate: seq<byte> -> Option<seq<byte>>,
                      utf8: seq<byte> -> string): Option<GitObject> {
    match file
    case None => None
    case Some(raw) =>
      match inflate(raw)
      case None => None
      case Some(buf) => DecodeInflated(oid, buf, utf8)
  }

  /** `readObject` returns `null` in exactly three cases: no file, no inflation, no header. */
  lemma ReadObjectFails(oid: string, file: Option<seq<byte>>, inflate: seq<byte> -> Option<seq<byte>>,
                        utf8: seq<byte> -> string)
    ensures ReadObject(oid, file, inflate, utf8).None? <==>
      || file.None?
      || inflate(file.value).None?
      || Space !in inflate(file.value).value
      || forall k :: IndexOf(inflate(file.value).value, Space, 0) <= k < |inflate(file.value).value| && 0 <= k
           ==> inflate(file.value).value[k] != Nul
  {
    if file.Some? && inflate(file.value).Some? {
      SplitHeaderFails(inflate(file.value).value);
    }
  }

  /**
   * Decoding an object laid out as `<tag> <size>\0<content>`: it succeeds, keeps the caller's
   * oid and the raw size field, gets its kind from the tag alone, and decodes the content by
   * kind: tree entries, commit text with its tree and parents, or the binary marker exactly
   * when the content looks binary.
   */
  lemma DecodeRoundTrip(oid: string, h: Header, utf8: seq<byte> -> string)
    requires Space !in h.tag && Nul !in h.sizeField
    ensures DecodeInflated(oid, EncodeHeader(h), utf8).Some?
    ensures var o := DecodeInflated(oid, EncodeHeader(h), utf8).value;
      && o.oid == oid && o.sizeField == h.sizeField && o.Kind() == Classify(h.tag)
      && (o.TreeObject? ==> o.entries == ParseTree(h.content))
      && (o.CommitObject? ==>
            o.text == utf8(h.content) && CommitRefs(o.tree, o.parents) == ParseCommit(o.text))
      && (o.BlobObject? || o.TagObject? || o.UnknownObject? ==>
            (o.content == BinaryData <==> LooksBinary(h.content)) &&
            (o.content.Text? ==> o.content.text == utf8(h.content)))
  {
    SplitHeaderRoundTrip(h);
  }

  // ---------------------------------------------------------------- readReflog

  /**
   * One record of `readReflog`: fields 0 and 1 of a split on spaces, and fields 5 onward joined
   * again. `newSha` is `None` where `parts[1]` is `undefined` (a line without a space).
   */
  datatype SimpleReflogRecord = SimpleReflogRecord(oldSha: string, newSha: Option<string>, message: string)

  /** The record made from one line. */
  function LineRecord(line: string): SimpleReflogRecord {
    var parts := Split(line, ' ');
    SimpleReflogRecord(parts[0], if |parts| > 1 then Some(parts[1]) else None,
                       Join(SliceFrom(parts, 5), ' '))
  }

  /** `readReflog`: `[]` when the log is absent or unreadable, otherwise one record per line, latest first. */
  function ReadReflog(file: Option<string>): seq<SimpleReflogRecord> {
    match file
    case None => []
    case Some(content) =>
      var lines := TrimmedLines(content);
      Reverse(seq(|lines|, i requires 0 <= i < |lines| => LineRecord(lines[i])))
  }

  /**
   * No records for a missing or unreadable file; otherwise one record per line of the trimmed
   * file, in reverse line order. An empty or whitespace-only file still yields one record, made
   * from the empty line.
   */
  lemma ReadReflogLines(content: string)
    ensures ReadReflog(None) == []
    ensures var r, lines := ReadReflog(Some(content)), TrimmedLines(content);
      && |r| == |lines| >= 1
      && (forall i :: 0 <= i < |r| ==> r[i] == LineRecord(lines[|lines| - 1 - i]))
      && (Trim(content) == "" ==> r == [SimpleReflogRecord("", None, "")])
  {
    var lines := TrimmedLines(content);
    if Trim(content) == "" {
      assert lines == [""];
      assert Split("", ' ') == [""];
    }
  }

  /**
   * The fields of a record: `oldSha` is the text before the first space, `newSha` the text
   * between the first two spaces (absent without a space), and `message` exactly the text after
   * the fifth space (`""` with fewer than five).
   */
  lemma LineRecordFields(line: string)
    ensures var r := LineRecord(line);
      && ' ' !in r.oldSha && StartsWith(line, r.oldSha)
      && (r.newSha.None? <==> ' ' !in line)
      && (r.newSha.Some? ==> ' ' !in r.newSha.value && StartsWith(line, r.oldSha + " " + r.newSha.value))
      && r.message == AfterSeparators(line, ' ', 5)
    ensures ' ' !in line ==> LineRecord(line).oldSha == line
    ensures var r := LineRecord(line);
      r.newSha.Some? ==>
        var n := |r.oldSha| + 1 + |r.newSha.value|;
        n <= |line| && (n == |line| || line[n] == ' ')
  {
    var parts := Split(line, ' ');
    DropFields(line, ' ', 5);
    JoinSplit(line, ' ');
    SplitSingleIff(line);
    if ' ' !in line {
      SplitNoSeparator(line, ' ');
    } else {
      JoinPrefix(parts);
      if |parts| > 2 {
        JoinPrefix(parts[1..]);
      }
    }
  }

  /** A join of two or more pieces starts with the first piece and a separator. */
  lemma JoinPrefix(parts: seq<string>)
    requires |parts| >= 2
    ensures Join(parts, ' ') == parts[0] + " " + Join(parts[1..], ' ')
  {
  }

  /** A line splits into one piece exactly when it holds no space. */
  lemma SplitSingleIff(line: string)
    ensures |Split(line, ' ')| == 1 <==> ' ' !in line
  {
    if ' ' !in line {
      SplitNoSeparator(line, ' ');
    } else {
      var k :| 0 <= k < |line| && line[k] == ' ';
      SplitAround(line[..k], ' ', line[k + 1..]);
      assert line == line[..k] + [' '] + line[k + 1..];
    }
  }
}
