# NGOPREK core in Dafny

NGOPREK is a VS Code extension that shows the inside of a Git repository. This project models
the parts of it that decode data:

- **Loose objects.** `GitPlumbing.readObject` inflates a loose object and splits its header
  `<type> <size>\0<content>`. It classifies the type tag, then decodes the content by kind:
  - tree records, via `parseTreeContent`;
  - commit headers, via `parseCommitContent`;
  - the NUL-byte binary heuristic `isBinary`, for blobs, tags and unknown objects.
- **The simple reflog reader.** `GitPlumbing.readReflog` splits each line on spaces.
- **The reflog hunter.** `ReflogHunter.hunt` matches each reflog line against a regular
  expression. `ReflogHunter.findGhosts` keeps one entry per commit the log reached.
- **Status lines.** `GitCommandService.getStatus` classifies the lines of
  `git status --porcelain`.
- **Two pieces of the extension's entry point.** The object id is read from a path the
  `.git/objects` watcher reports, and a resurrected commit gets a recovery branch name.

The project has these modules, one file each:
- `Wrappers`: the option type.
- `Bytes`: Node buffer primitives: `indexOf` and lowercase hex.
- `Strings`: JavaScript string primitives: `split`, `join`, `trim`, `substring`, decimal digits.
- `Seqs`: `reverse`, `filter`, flat-mapping and the subsequence relation.
- `GitObjects`: the decoded object model.
- `GitTree`, `GitCommit` and `GitEngine`: `src/gitEngine.ts`.
- `ReflogLine` and `ReflogEngine`: `src/reflogEngine.ts`.
- `GitStatus`: `src/gitCommandService.ts`.
- `Extension`: `src/extension.ts`.

The code's loops are methods with loop invariants, each proved equal to a specification function:
- the cursor loop of `parseTreeContent`;
- the header loop of `parseCommitContent`;
- the early-return scan of `isBinary`;
- the `seen` set of `findGhosts`.

The properties are lemmas about those functions. The pipelines that are pure in the source are
functions: the header split, the type switch, the regular-expression match, and the
`map`/`filter`/`reverse` steps.

The regular expression of `hunt` is modelled as the backtracking search a JavaScript engine
performs, as follows:
- lazy groups try the shortest text first;
- `\d+` tries the longest digit run first;
- `.` stops at `\n`, `\r`, U+2028 and U+2029.

The JavaScript operations that are foreign code are parameters of the model:
- `fs.existsSync` and `readFileSync`: the file is an `Option`;
- `zlib.inflateSync`: a function to `Option`, with `None` where it throws;
- UTF-8 decoding with `toString('utf8')`: a function from bytes to a string.

## Where code and tests disagree

The model follows the code of `src/` in each of these points.

- **Tab before the action.** The regular expression in `src/reflogEngine.ts:29` separates the
  timezone from the action by a space. The unit tests in `src/test/unit/reflogHunter.test.ts`
  use a tab there, and the behaviour differs from what they expect:
  - the tab line `… +0700\tcommit (initial): message 1` matches with the action `(initial)`,
    not `commit (initial)`;
  - `… +0700\tcheckout: moving from master to dev` does not match at all.
- **Lines without a colon.** Such lines are dropped. The unit test at
  `src/test/unit/reflogHunter.test.ts:36-43` expects one entry with the action `unknown` for
  such a line, and the code has no such case.

## Model

| member | source | states |
|---|---|---|
| Bytes.IndexOf | src/gitEngine.ts:53-54 | `buffer.indexOf(b, from)` is -1 or a position at or after `from` inside the buffer |
| Bytes.IndexOfFirst | src/gitEngine.ts:53-54 | the position found holds `b`, no earlier position from `from` on does, and -1 comes back exactly when no position from `from` on holds `b` |
| Bytes.IndexOfAt | src/gitEngine.ts:116-123 | a position holding `b` with no `b` between `from` and it is exactly what `indexOf` returns |
| Bytes.HexRoundTrip | src/gitEngine.ts:131-132 | `toString('hex')` gives lowercase hex digits, and decoding them gives back the bytes |
| Strings.Trim | src/gitEngine.ts:193 | the model of `trim()`: `TrimEnd` of `TrimStart`, both over the full ECMAScript whitespace set; its shape is stated by TrimStartShape, TrimEndShape and TrimEmptyIff |
| Strings.Split | src/gitEngine.ts:193 | `split` yields at least one piece, and no piece contains the separator |
| Strings.JoinSplit | src/gitEngine.ts:197-201 | joining the pieces of a split with the same separator gives the string back |
| Strings.SplitJoin | src/gitEngine.ts:158 | splitting a join of separator-free pieces gives the pieces back |
| Strings.DropFields | src/gitEngine.ts:201 | `parts.slice(n).join(sep)` is exactly the text after the n-th separator, or `""` when there are fewer separators |
| Strings.TrimStartShape | src/gitEngine.ts:193 | trimming the start drops exactly the leading whitespace: the rest is a suffix that starts with a non-whitespace character |
| Strings.TrimEndShape | src/gitEngine.ts:193 | trimming the end drops exactly the trailing whitespace: the rest is a prefix that ends with a non-whitespace character |
| Strings.TrimEmptyIff | src/reflogEngine.ts:25 | `trim()` gives `""` exactly when every character is whitespace |
| Strings.SubstringTo | src/extension.ts:23 | `substring(0, n)` is a prefix of length `min(n, length)` |
| Strings.DecimalRoundTrip | src/extension.ts:23 | the decimal digits of a number read back as that number |
| Seqs.Reverse | src/reflogEngine.ts:41 | `reverse()` keeps the length and puts element `i` at position `length - 1 - i` |
| Seqs.ReverseConcat | src/reflogEngine.ts:41 | reversing a concatenation puts the reversed later part first |
| Seqs.FilterFacts | src/gitCommandService.ts:26 | `filter` returns a subsequence holding exactly the elements that satisfy the predicate, each as many times as it occurs in the input |
| Seqs.FilterConcat | src/gitCommandService.ts:26 | filtering a concatenation gives the filtered parts, concatenated in the same order |
| GitTree.ParseRecord | src/gitEngine.ts:116-142 | the model of one loop iteration: the record at the cursor and the next cursor, or none where the source breaks; stated by RecordMode, RecordPath, RecordAdvances and RecordReadsBack |
| GitTree.ParseTree | src/gitEngine.ts:110-145 | the model of `parseTreeContent` as a recursive reader from cursor 0; stated by ParseTreeContent, TreeRoundTrip and TruncatedTree |
| GitTree.RecordAdvances | src/gitEngine.ts:114-133 | a complete record moves the cursor forward by mode length + path length + 22, staying within the buffer |
| GitTree.ReadRecord | src/gitEngine.ts:116-142 | one loop iteration yields the record's entry and the next cursor, or nothing where the source breaks, exactly as the record reader does |
| GitTree.ParseTreeContent | src/gitEngine.ts:110-145 | the cursor loop returns exactly the entries of the recursive tree reader |
| GitTree.RecordMode | src/gitEngine.ts:116-119 | a read record's mode is the space-free run of bytes up to the first space after the cursor |
| GitTree.RecordPath | src/gitEngine.ts:123-133 | a read record's path is the NUL-free run after the space up to the next NUL, and its id is the 20 bytes after that NUL |
| GitTree.ParsedEntriesWellFormed | src/gitEngine.ts:119-142 | every entry has a space-free mode, a NUL-free path and a 40-digit lowercase oid; its kind is Tree exactly when the mode is `40000` or `040000`, and Blob otherwise |
| GitTree.RecordReadsBack | src/gitEngine.ts:116-133 | a well-formed record in front of any bytes is read whole and nothing more |
| GitTree.ParseEncodedThen | src/gitEngine.ts:110-145 | well-formed records in front of any bytes contribute their entries in order, then parsing continues in the rest |
| GitTree.TreeRoundTrip | src/gitEngine.ts:110-145 | K well-formed records parse to exactly their K entries, in order |
| GitTree.PartialRecordYieldsNothing | src/gitEngine.ts:117-130 | a proper prefix of one record yields no entry, whether the cut is in the mode, the path or the id |
| GitTree.TruncatedTree | src/gitEngine.ts:114-143 | a tree cut inside record k yields exactly the entries of the k complete records before the cut |
| GitCommit.ParseCommit | src/gitEngine.ts:157-173 | the model of `parseCommitContent`: the last `tree ` line and the `parent ` lines of the header; stated by ParseCommitContent, CommitHeaderRoundTrip and CommitBodyIgnored |
| GitCommit.HeaderLength | src/gitEngine.ts:162-163 | the header is every line before the first empty line, or all lines when none is empty |
| GitCommit.ParseCommitContent | src/gitEngine.ts:157-173 | the line loop returns the tree of the last `tree ` line and the parents of the `parent ` lines of the header |
| GitCommit.LastTreeKept | src/gitEngine.ts:165-166 | lines without a `tree ` line leave the tree unchanged |
| GitCommit.LastTreeOverridden | src/gitEngine.ts:165-166 | the last `tree ` line wins over all earlier ones |
| GitCommit.NoTreeLine | src/gitEngine.ts:160 | without a `tree ` line the tree is `""` |
| GitCommit.NoParentLine | src/gitEngine.ts:159 | without a `parent ` line the parents are `[]` |
| GitCommit.CommitBodyIgnored | src/gitEngine.ts:162-163 | two commit texts whose lines agree up to and including an empty line parse to the same tree and parents, whatever follows |
| GitCommit.CommitHeaderRoundTrip | src/gitEngine.ts:157-173 | `tree T`, `parent P1` to `parent Pn`, a blank line and any message parse to tree `T` and parents `[P1, …, Pn]` in order |
| GitCommit.ParentsOfHeader | src/gitEngine.ts:167-168 | the `parent ` lines of a commit header give its parents in order, the `tree ` line none |
| GitEngine.SplitHeader | src/gitEngine.ts:53-65 | the model of the header split at the first space and the next NUL; stated by SplitHeaderFails, SplitHeaderShape and SplitHeaderRoundTrip |
| GitEngine.Classify | src/gitEngine.ts:67-74 | the model of the `switch` on the type tag; stated by ClassifyExact and ClassifyTagOf |
| GitEngine.DecodeInflated | src/gitEngine.ts:52-98 | the model of decoding an inflated buffer by its kind; stated by DecodeRoundTrip |
| GitEngine.ReadObject | src/gitEngine.ts:39-104 | the model of `readObject`, with the file and `inflateSync` as parameters; stated by ReadObjectFails and DecodeRoundTrip |
| GitEngine.SplitHeaderFails | src/gitEngine.ts:53-58 | the header split fails exactly when there is no space, or no NUL from the first space on |
| GitEngine.SplitHeaderShape | src/gitEngine.ts:53-65 | a successful split gives the tag before the first space, the size field up to the next NUL and the content after it, and these reassemble to the buffer |
| GitEngine.SplitHeaderRoundTrip | src/gitEngine.ts:53-65 | a space-free tag and a NUL-free size field are split back out exactly, with the content intact |
| GitEngine.ClassifyExact | src/gitEngine.ts:67-74 | a tag classified as known is exactly that kind's tag, and a tag is Unknown exactly when it is none of `blob`, `tree`, `commit` and `tag` |
| GitEngine.ClassifyTagOf | src/gitEngine.ts:67-74 | each known kind's tag classifies back to that kind |
| GitEngine.ScanLength | src/gitEngine.ts:178 | the scanned length is `min(length, 8000)` |
| GitEngine.IsBinary | src/gitEngine.ts:175-183 | the loop answers true exactly when a zero byte occurs among the first `min(length, 8000)` bytes |
| GitEngine.BinaryIgnoresTail | src/gitEngine.ts:178-181 | bytes past the first 8000 never change the verdict |
| GitEngine.BinaryShortIff | src/gitEngine.ts:178-181 | content of at most 8000 bytes is binary exactly when it holds a zero byte |
| GitEngine.ReadObjectFails | src/gitEngine.ts:39-103 | `readObject` gives null exactly when the file is absent, inflation fails, there is no space, or there is no NUL from the first space on |
| GitEngine.DecodeRoundTrip | src/gitEngine.ts:79-98 | an object laid out as `<tag> <size>\0<content>` decodes, keeping the caller's oid and the raw size field, with its kind from the tag and its content decoded by kind: tree entries, commit text with tree and parents, or the binary marker exactly when the content looks binary |
| GitEngine.ReadReflog | src/gitEngine.ts:187-208 | the model of `readReflog`, with the file as a parameter; stated by ReadReflogLines |
| GitEngine.LineRecord | src/gitEngine.ts:196-202 | the model of the `map` callback that splits a line on spaces; stated by LineRecordFields |
| GitEngine.ReadReflogLines | src/gitEngine.ts:187-207 | a missing or unreadable file gives `[]`; otherwise one record per line of the trimmed file, in reverse line order, and a blank file gives the single empty record |
| GitEngine.LineRecordFields | src/gitEngine.ts:196-202 | `oldSha` is the text before the first space, or the whole line without one; `newSha` the text after the first space up to the next space or the end (absent without a space); and `message` exactly the text after the fifth space |
| ReflogLine.MatchAction | src/reflogEngine.ts:29 | a match of `(.*?): (.*)$` splits the text into action, `": "` and message |
| ReflogLine.MatchZone | src/reflogEngine.ts:29 | a match of `(.*?) ` and the rest splits the text into timezone, a space and the action tail |
| ReflogLine.DigitRun | src/reflogEngine.ts:29 | the run taken by greedy `\d+` is all digits and is followed by a non-digit or the end |
| ReflogLine.MatchStamp | src/reflogEngine.ts:29 | a match of `(\d+) ` and the rest splits the text into digits, a space and the zone tail |
| ReflogLine.MatchEmail | src/reflogEngine.ts:29 | a match of `.*?> ` and the rest splits the text into e-mail, `"> "` and the stamp tail |
| ReflogLine.MatchUser | src/reflogEngine.ts:29 | a match of `(.*?) <` and the rest splits the text into user, `" <"` and the e-mail tail |
| ReflogLine.MatchLine | src/reflogEngine.ts:29 | a matched line reassembles exactly as `old + ' ' + new + ' ' + user + ' <' + email + '> ' + ts + ' ' + tz + ' ' + action + ': ' + message` |
| ReflogLine.MatchIff | src/reflogEngine.ts:29-30 | a line matches exactly when some groups of the pattern's shape spell it: two 40-digit lowercase hashes, a digit timestamp and no line terminator |
| ReflogLine.UserMatchOk | src/reflogEngine.ts:29 | no group of a match spans a line terminator, and the timestamp group is a non-empty digit run |
| ReflogLine.MatchWellFormed | src/reflogEngine.ts:29-35 | every match has two 40-digit lowercase hex hashes, an all-digit timestamp and no line terminator in any group |
| ReflogLine.LineRoundTrip | src/reflogEngine.ts:29-38 | groups with no earlier stopping place for a lazy group are found again in the line they spell |
| ReflogEngine.LineEntry | src/reflogEngine.ts:27-40 | the model of the `map` callback: the entry of a matching line, or none; stated by LineEntryShas and LineEntryRoundTrip |
| ReflogEngine.Hunt | src/reflogEngine.ts:17-46 | the model of `hunt`, with the file as a parameter; stated by HuntEmpty, HuntBound, HuntLatestFirst and HuntEntries |
| ReflogEngine.EntriesFrom | src/reflogEngine.ts:27-41 | an entry is in the result exactly when some line yields it; non-matching lines are dropped |
| ReflogEngine.EntriesConcat | src/reflogEngine.ts:27-41 | the entries of lines `a` then `b` are the entries of `a` followed by those of `b` |
| ReflogEngine.EntriesBound | src/reflogEngine.ts:27-41 | there are at most as many entries as lines |
| ReflogEngine.LineEntryShas | src/reflogEngine.ts:29-33 | an entry's `oldSha` and `newSha` are 40-digit lowercase hex |
| ReflogEngine.HuntEmpty | src/reflogEngine.ts:19-25 | a missing log, and a log of only whitespace, give `[]` |
| ReflogEngine.HuntBound | src/reflogEngine.ts:25-41 | at most one entry per line of the trimmed log |
| ReflogEngine.HuntLatestFirst | src/reflogEngine.ts:41 | for earlier lines `a` and later lines `b`, the entries of `b` come first, each part in reverse line order |
| ReflogEngine.HuntEntries | src/reflogEngine.ts:27-41 | `hunt` returns exactly the entries of matching lines, each with two 40-digit lowercase hashes |
| ReflogEngine.LineEntryRoundTrip | src/reflogEngine.ts:29-38 | a line spelled from canonical groups yields the entry of those groups, with the timestamp as the value of its digits |
| ReflogEngine.Ghosts | src/reflogEngine.ts:52-60 | the model of `findGhosts` as a function; stated by FindGhosts, GhostsFacts and GhostsKeepFirst |
| ReflogEngine.FindGhosts | src/reflogEngine.ts:52-60 | the filter with its mutable `seen` set returns exactly the deduplication by `newSha` |
| ReflogEngine.DedupFacts | src/reflogEngine.ts:54-59 | continuing from a `seen` set, the result is a subsequence with distinct, unseen `newSha`s: exactly those of the input less the seen ones |
| ReflogEngine.DedupDistinct | src/reflogEngine.ts:54-59 | entries with distinct, unseen `newSha`s pass through unchanged |
| ReflogEngine.GhostsFacts | src/reflogEngine.ts:52-60 | `findGhosts` keeps order, returns one entry per `newSha`, loses no `newSha`, returns only entries of its input, and is idempotent |
| ReflogEngine.GhostsKeepFirst | src/reflogEngine.ts:54-59 | `findGhosts` equals the independent backward definition that keeps an entry exactly when its `newSha` does not occur before it |
| GitStatus.Classify | src/gitCommandService.ts:33-37 | the model of the if-chain on `x` and `y`; stated by ClassifyCases and StagedWinsOverDeleted |
| GitStatus.LineStatus | src/gitCommandService.ts:28-39 | the model of the `map` callback on one line; stated by ClassifyCases, LineStatusPath and GetStatusLine |
| GitStatus.ClassifyCases | src/gitCommandService.ts:33-37 | staged exactly when the first character is `M` or `A`; untracked exactly for `??`; deleted exactly when the line is not staged, the second character is not `M`, the code is not `??` and either character is `D`; modified otherwise; `added` never |
| GitStatus.StagedWinsOverDeleted | src/gitCommandService.ts:34 | the code `MD` is staged, not deleted |
| GitStatus.GetStatus | src/gitCommandService.ts:23-45 | the model of `getStatus`, with the command's output as a parameter; stated by GetStatusConcat, GetStatusLine and GetStatusEmpty |
| GitStatus.StatusLinesFacts | src/gitCommandService.ts:26 | the lines kept are exactly the non-blank ones, in order, each as many times as it occurs in the output |
| GitStatus.LineStatusPath | src/gitCommandService.ts:31 | a line is its two-character code, one more character and the path; a line of at most three characters has an empty path |
| GitStatus.GetStatusConcat | src/gitCommandService.ts:26-40 | the entries of two blocks of output joined by a line break are the entries of the first block followed by those of the second |
| GitStatus.GetStatusLine | src/gitCommandService.ts:26-40 | one line gives exactly its own entry when it is not blank, and no entry when it is blank |
| GitStatus.GetStatusEmpty | src/gitCommandService.ts:24-44 | a failing command, and output of only blank lines, give `[]` |
| Extension.OidFromPath | src/extension.ts:34-37 | the model of the oid taken from a watched path; stated by OidShape, OidNone, OidAt and TemporaryObjectIgnored |
| Extension.FirstMatch | src/extension.ts:34 | a match position leaves room for the 49 characters of a match |
| Extension.FirstMatchFacts | src/extension.ts:34 | the unanchored search finds the leftmost match, and finds none exactly when there is none |
| Extension.OidShape | src/extension.ts:34-37 | an extracted oid has 40 hex characters: the two after `objects` and a separator, then the 38 after the next separator, as written in the path |
| Extension.OidNone | src/extension.ts:34-36 | there is no oid exactly when the pattern matches nowhere in the path |
| Extension.OidAt | src/extension.ts:34-37 | either separator in either place, and hex digits of either case, give the directory followed by the file name as the oid |
| Extension.TemporaryObjectIgnored | src/extension.ts:34-36 | a path in which every fan-out directory `objects/xx/` is followed by a temporary object file `tmp_obj_…` gives no oid, since `t` is not a hex digit |
| Extension.RecoveryBranchName | src/extension.ts:23 | the model of the recovery branch name; stated by BranchNameLayout and BranchNameInjective |
| Extension.BranchNameLayout | src/extension.ts:23 | the branch name is `recovered-`, the first 7 characters of the oid, `-`, and the decimal digits of `floor(nowMs / 1000)` |
| Extension.BranchNameInjective | src/extension.ts:23 | equal branch names mean the same short oid and the same second, even for a short oid that holds a dash |

## Left out

- Reading files and the directory layout are not modelled: `fs.existsSync`, `readFileSync` and
  `path.join`. The file contents are `Option` parameters.
- zlib inflation (RFC 1950 and RFC 1951) is not modelled; it is a parameter that may fail.
- UTF-8 decoding is not modelled. Decoded text is what a parameter function returns. Tree modes
  and paths stay raw bytes, and the type tag and mode tests compare bytes with the ASCII
  spellings.
- `JSON.stringify` of tree entries is not modelled, because it is library serialisation: a
  decoded tree carries its entries only.
- `parseInt` of the size field is not modelled: the size is kept as its raw bytes, which the
  code never checks against the content length.
- `parseInt` of a reflog timestamp is modelled as the exact value of its digits. It loses
  precision above 2^53 in JavaScript.
- JavaScript strings are modelled as sequences of characters. UTF-16 code units and surrogate
  pairs are not modelled, so `line[0]`, `substring` and the regular expression's `.` count
  characters.
- The `try`/`catch` blocks that log and return `[]` or `null` are failure paths, which the
  `Option` parameters cover. `console.error` is not modelled.
- `GitCommandService.exec`, `add`, `unstage`, `commit`, `push`, `pull` and `openGitk` run
  processes, so they are not modelled. `getStatus` takes the command's output as a parameter.
- extension.ts is modelled only in the oid extraction and the branch name. Panel lifecycle,
  message routing, the polling timer, `getNonce`, the terminal commands and the educational
  tidbits are user interface, so they are not modelled.
- `Date.now()` is a parameter, in milliseconds.
- src/githubService.ts, src/auth.ts, src/educationalEngine.ts, webview-ui and webpack.config.js
  are not part of this model. They are network clients, a lookup table, user interface and
  build configuration.
- The compiled files under out/ and dist/ are not part of this model. They are stale builds
  that differ from `src/`.
- The unit tests' reflog expectations that the code does not meet (the tab separator, the
  action `commit (initial)` and the `unknown` fallback) are not modelled. The code's behaviour
  is described above.
- Strings.TrimStart: its own contract states only that the result is no longer than the input.
  Its shape is stated by Strings.TrimStartShape.
- Strings.TrimEnd: its own contract states only that the result is no longer than the input.
  Its shape is stated by Strings.TrimEndShape.
- Bytes.IndexOf: its own contract gives only the range of the result. That the position holds
  the byte and is the first one is stated by Bytes.IndexOfFirst.
- ReflogLine.MatchLine: its own contract states only that a match reassembles the line. That
  every line spelled by groups of the pattern's shape matches is stated by ReflogLine.MatchIff.
- Bytes.Hex: its own contract gives only the length of the encoding. Its digits and its inverse
  are stated by Bytes.HexRoundTrip.
