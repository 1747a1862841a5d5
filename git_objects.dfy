/**
 * The decoded object model of `src/gitEngine.ts`: the closed set of object kinds, a tree entry,
 * and a decoded object as a tagged union whose payload depends on its kind.
 */
module GitObjects {
  import opened Bytes

  /** `GitObjectType`. */
  datatype ObjectType = Blob | Tree | Commit | Tag | Unknown

  /** What a blob, tag or unknown object shows: the `'<Binary Data>'` marker or its text. */
  datatype Content = BinaryData | Text(text: string)

  /**
   * One record of a tree. `mode` and `path` are the raw bytes of the record (their UTF-8
   * decoding is not modelled); `oid` is the lowercase hex of the record's 20 id bytes; `kind`
   * is the guess made from the mode.
   */
  datatype TreeEntry = TreeEntry(mode: seq<byte>, path: seq<byte>, oid: string, kind: ObjectType)

  /**
   * A decoded loose object. Every variant carries the caller's `oid` and the raw bytes of the
   * header's size field (`sizeField`, never checked against the content length).
   */
  datatype GitObject =
    | BlobObject(oid: string, sizeField: seq<byte>, content: Content)
    | TreeObject(oid: string, sizeField: seq<byte>, entries: seq<TreeEntry>)
    | CommitObject(oid: string, sizeField: seq<byte>, text: string, tree: string, parents: seq<string>)
    | TagObject(oid: string, sizeField: seq<byte>, content: Content)
    | UnknownObject(oid: string, sizeField: seq<byte>, content: Content)
  {
    /** The object's `type` field. */
    function Kind(): ObjectType {
      match this
      case BlobObject(_, _, _) => Blob
      case TreeObject(_, _, _) => Tree
      case CommitObject(_, _, _, _, _) => Commit
      case TagObject(_, _, _) => Tag
      case UnknownObject(_, _, _) => Unknown
    }
  }
}
