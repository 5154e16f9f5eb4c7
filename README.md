# RBuild in Dafny

RBuild is a small build tool written in Rust. A build configuration names
target paths, their dependencies and the commands that produce them. RBuild
reads the configuration into a graph of targets. It runs each target's
commands only when the target is out of date, and it keeps a binary cache of
command hashes between runs. The repository holds several revisions of this
machinery side by side, and this project models each one against its own
types:

- **Token-stream revision.**
  - `src/token.rs` and `src/lexer.rs` turn a configuration into
    `path` / `deps` / `run` / `always` keywords, numbers and identifiers.
    They handle quoting, backslash escapes and skipped `#` tags.
  - `src/parser.rs` reads that token stream, node by node, into a graph and
    a path → index map. Each command carries a hash of its executable and
    arguments.
  - `src/cache.rs` writes those hashes to the cache and reads them back
    into `cached_hash`.
- **Line-oriented revision, `src/builder.rs`.**
  - `build_graph` reads `path` / `dep` / `run` / `arg` lines.
  - `Target::execute` reruns a command when an input is newer or when the
    command's hash changed.
  - `write_hash_cache` and `read_hash_cache` form the same cache format with
    a slightly different writer.
- **`Graph::from_config` in `src/graph/mod.rs`.** Another line reader, which
  refuses a path declared twice.
- **`Target::execute` in `src/target.rs`.** The timestamp rule with `cmds`,
  which run when an input is newer, and `always_cmds`, which run every time.
- **`fibonacci` of the test fixture
  `tests/minimal_project/src/fibonacci.cpp`.** The C++ program that RBuild's
  own tests compile.

One Dafny module per source file holds that file's model: `Token`, `Lexer`,
`Parser`, `Cache`, `Builder`, `ConfigGraph`, `TargetExec` and `Fibonacci`.
Shared pieces have modules of their own:

- `Wire`: `u64` little-endian bytes and UTF-8.
- `Text`: Rust's `char::is_whitespace`, `str::lines`, `split_whitespace`
  and `trim`.
- `HashCache`: the cache record layout and the decoder that both readers
  share.
- `Targets`: the graph values of the token-stream revision.
- `Timestamps`: newest input time and `max`.
- `Folds`: the per-line loop of the two line readers, as a fold that stops
  at the first error.
- `Wrappers`: `Option` and `Result`.

How the source's constructs are modelled:

- The source mutates an object field by field, so `Lexer` and `Parser` are
  classes whose methods update their fields.
- The loops of `read_until`, `skip_whitespace`, `next`, `parse_node`,
  `parse`, `write`, `read`, `execute`, `build_graph`, `from_config` and
  `fibonacci` are methods with loops.
- Each such method is proved equal to a function. The source's promises
  are then proved about that function as lemmas.
- A Rust panic becomes an `Err` value naming the panic.
- A `SystemTime` is a `nat`, counted from the Unix epoch (0).
- A `paragraphs::Graph` is a sequence of nodes, where `add` appends and
  returns the old length.
- A `HashMap` is a `map`.

The hash function, file timestamps and the outcome of each command are
parameters:

- `hash` maps a command, or the executable followed by its arguments, to
  its `u64` hash.
- `timestamp` and `finalTimestamp` are the target path's modification time
  before and after its commands run.
- `succeeds[i]` says whether the i-th command exits successfully when it is
  launched.

Two quirks of the line readers are modelled as the code has them:

- **`build_graph`.** The value is the text after the first `keyword.len()`
  characters of the line, trimmed at both ends. The keyword is found after
  any leading whitespace, so an indented line loses characters from the
  line's start, not the keyword.
- **`from_config`.** The value runs from the first non-whitespace character
  after `keyword.len()` characters, counted from the line start, to the end
  of the line, trailing whitespace included. A `run` line stores the raw
  text after `keyword.len()` characters, leading whitespace included.

The fixture's function is named `fibonacci`, and its test program
(`tests/minimal project/test/test.cpp`, lines 9-10) prints its results as
elements of the Fibonacci sequence. The code as written, however, doubles its
accumulator. The model follows the code and records the difference under
Findings.

## Model

| member | source | states |
|---|---|---|
| Token.Lookup | src/token.rs:18-31 | exactly "path", "deps", "run" and "always" give the four keyword tokens (both directions); any other word gives `Num(v)` only when it parses as a `usize` with value v, and otherwise `Ident` with the identical text; never `Tag` |
| Token.LookupNumeral | src/token.rs:19-27 | a word starting with a digit or `+` is no keyword, so it is `Num` of its value whenever it parses as a `usize` |
| Token.LookupDecimal | src/token.rs:25-27 | every decimal numeral up to `usize::MAX`, with or without a leading `+`, is read as `Num` of that number |
| Token.LookupOverflow | src/token.rs:25-28 | a decimal numeral above `usize::MAX` stays an `Ident` with the same text |
| Token.LookupNonNumeric | src/token.rs:24-28 | a non-keyword word with a character that is neither a digit nor a leading `+` is an `Ident` with the same text |
| Lexer.Lexer.constructor | src/lexer.rs:11-13 | a new lexer holds the whole input unconsumed |
| Lexer.Lexer.ReadChar | src/lexer.rs:15-17 | returns and consumes the first unconsumed character, or None when the input is exhausted |
| Lexer.Lexer.PeekChar | src/lexer.rs:19-21 | returns the first unconsumed character without consuming it |
| Lexer.Lexer.SkipWhitespace | src/lexer.rs:23-31 | consumes exactly the leading run of whitespace; afterwards the input is empty or starts with a non-whitespace character |
| Lexer.StopIndex | src/lexer.rs:34-45 | the first index whose character ends the read and is not preceded by the escape `\`, or the input length; no earlier index stops the read |
| Lexer.StopIndexIs | src/lexer.rs:37-43 | the stop index is the unique index before which no character stops the read and at which one does |
| Lexer.Read | src/lexer.rs:34-45 | reading a non-empty input always consumes at least one character |
| Lexer.Lexer.ReadUntil | src/lexer.rs:34-45 | returns the characters before the first unescaped terminator, backslashes kept, and leaves the input after the terminator; with no such terminator it returns all the input and leaves nothing |
| Lexer.ReadWord | src/lexer.rs:34-45 | a word whose whitespace is all escaped, followed by unescaped whitespace or the end, is read whole and the ending whitespace character is dropped |
| Lexer.Lex | src/lexer.rs:47-69 | `next_token` yields None exactly when only whitespace is left, and each token consumes at least one character |
| Lexer.Lexer.NextToken | src/lexer.rs:47-69 | the token and the remaining input are those of `Lex`; on None the input is used up |
| Lexer.ReadQuoted | src/lexer.rs:53-57 | reading a quoted body up to its unescaped closing quote yields the body and drops the quote |
| Lexer.QuotedWordIsIdent | src/lexer.rs:53-57 | a word opened by `'` or `"` is an `Ident` of the text up to the matching unescaped quote, quotes removed, even when that text spells a keyword or a number |
| Lexer.BareWordIsLookedUp | src/lexer.rs:64 | a bare word, up to the first unescaped whitespace with escaped whitespace and backslashes kept, is classified by `Token::lookup` |
| Lexer.TagIsSkipped | src/lexer.rs:59-79 | a `#` word is a `Tag` that runs to unescaped whitespace, and the iterator skips it and continues with what follows |
| Lexer.LexNext | src/lexer.rs:74-81 | the iterator never yields `Tag`, and each token consumes at least one character |
| Lexer.Lexer.Next | src/lexer.rs:74-81 | the loop that skips tags yields what `LexNext` yields and leaves the same remaining input; on None the input is used up |
| Lexer.LexNextNoneIffOnlyTags | src/lexer.rs:47-81 | the iterator returns None exactly when the remaining input is only whitespace and `#` tags |
| Lexer.Tokens | src/lexer.rs:72-81 | the token stream has at most as many tokens as the input has characters and holds no `Tag` |
| Parser.SplitIdents | src/parser.rs:59-64 | takes the maximal run of `Ident` tokens, in order, and stops at the first token that is not an `Ident` |
| Parser.SplitNums | src/parser.rs:71-75 | takes the maximal run of `Num` tokens, in order, and stops at the first token that is not a `Num` |
| Parser.ParseCommand | src/parser.rs:45-67 | fails exactly when no `Ident` follows `run`; otherwise the executable is that identifier, every immediately following `Ident` is an argument in order, the hash is `hash` of the executable followed by the arguments, and nothing is cached yet |
| Parser.ParseCommandOf | src/parser.rs:45-67 | a command written as its executable and its arguments as identifiers, followed by a token that is no identifier or by the end, is read back as that command with its hash and nothing cached, and the following tokens are left |
| Parser.Body | src/parser.rs:37-80 | a node body stops at the next `Path` token, which it does not consume, or at the end of the stream, and contains no `Path`; a clause that starts with any token but `Path`, `Run` and `Deps` fails with `UnexpectedToken` of that token, and a `Run` with no identifier after it fails with `ExpectedExecutable` of what came instead |
| Parser.StrayTokenFails | src/parser.rs:44-78 | right after a node's path, any token but `Path`, `Run` and `Deps` makes the node fail with `UnexpectedToken` of that token |
| Parser.StrayTokenAfterDepsFails | src/parser.rs:69-78 | after a `deps` clause's numbers, any token but `Path`, `Run`, `Deps` and a number makes the node fail with `UnexpectedToken` of that token |
| Parser.RunWithoutExecutableFails | src/parser.rs:45-57 | a `run` inside a node followed by no identifier makes the node fail with `ExpectedExecutable` of the token that came instead, or None |
| Parser.ParseNodeOf | src/parser.rs:23-82 | fails unless the stream starts with `Path` then an `Ident`, which becomes the node's path; the rest of the node holds no `Path` and ends at a `Path` or at the end of the stream |
| Parser.ParseAll | src/parser.rs:84-88 | parsing keeps the nodes already in the graph as a prefix |
| Parser.Parser.constructor | src/parser.rs:19-21 | a new parser holds the token stream of the config, an empty graph and an empty node map |
| Parser.Parser.TakeArgs | src/parser.rs:59-64 | the argument loop consumes exactly the run of identifiers that `SplitIdents` takes and changes nothing else |
| Parser.Parser.TakeNums | src/parser.rs:71-75 | the dependency loop consumes exactly the run of numbers that `SplitNums` takes and changes nothing else |
| Parser.Parser.ParseNode | src/parser.rs:23-82 | on success appends exactly one node, whose index is the prior node count, maps its path to that index (overwriting a repeated path) and leaves the tokens after the node; otherwise fails with the error of `ParseNodeOf` |
| Parser.Parser.Parse | src/parser.rs:84-88 | parses nodes until the stream is empty, giving the graph and node map of `ParseAll`, or the first error |
| Parser.DeclaredOfNode | src/parser.rs:37-43 | the paths declared in a stream are the parsed node's path followed by those declared after it, so a node never swallows a `Path` |
| Parser.AddKeepsConsistent | src/parser.rs:81 | adding a node and mapping its path to its index keeps every mapped path pointing at a node with that path |
| Parser.ParseAllConsistent | src/parser.rs:81-88 | after `parse` the node map sends each path to a node with that path (the last one for a repeated path), and every node's path is mapped |
| Parser.ParseAllNodes | src/parser.rs:84-88 | `parse` appends one node per `Path` token, in the order of the declared paths |
| Parser.SplitIdentsOf | src/parser.rs:59-64 | a run of identifier tokens followed by a non-identifier is taken back exactly as the run |
| Parser.SplitNumsOf | src/parser.rs:71-75 | a run of number tokens followed by a non-number is taken back exactly as the run |
| Parser.ParseNodeOfRender | src/parser.rs:23-82 | parsing the tokens of a node whose commands carry the parser's own hashes, followed by the end or the next node, gives back that node and leaves what follows |
| Parser.ParseAllRender | src/parser.rs:84-88 | parsing the tokens of a whole graph of such nodes gives back the same nodes in the same order |
| Wire.ReadU64Le | src/cache.rs:35-36 | `u64::from_le_bytes` of the bytes of `to_le_bytes(x)` is x, whatever follows |
| Wire.U64LeOfRead | src/cache.rs:47-48 | any eight bytes are the `to_le_bytes` encoding of the value they decode to |
| Wire.DecodeEncode | src/cache.rs:38 | `from_utf8` reads back every string that `as_bytes` wrote |
| Wire.EncodeDecode | src/cache.rs:38 | whatever `from_utf8` accepts is exactly the UTF-8 encoding of the string it returns |
| HashCache.Record | src/cache.rs:17-22 | one record is 16 + path byte length + 8 · command count bytes long |
| HashCache.ReadHashes | src/cache.rs:50-54 | the `take(count)` loop fails, always with a truncation, exactly when fewer than 8 · min(count, commands) bytes remain; it fills slots 0 .. min(count, commands) − 1 with consecutive little-endian hashes, leaves the other slots unchanged and consumes exactly the bytes read |
| HashCache.ReadRecord | src/cache.rs:35-41 | a record that is read consumes at least its 8-byte length field, and the shape of the table is unchanged |
| HashCache.ReadFor | src/cache.rs:41-55 | after the path, a record never grows the remaining input or changes the table's shape |
| HashCache.ReadAll | src/cache.rs:33-56 | reading a whole cache changes only hash slots, never the number of targets or commands |
| HashCache.ReadHashesOfHashBytes | src/cache.rs:50-54 | reading back hashes fills the first min(count, commands) slots with them in order and leaves the hashes that had no command unread |
| HashCache.ReadRecordMatched | src/cache.rs:41-54 | a record for a mapped path overwrites the first min(count, commands) slots of the mapped target with the recorded hashes; surplus hashes stay unread and nothing else changes |
| HashCache.ReadRecordExact | src/cache.rs:41-54 | when the mapped target has one command per recorded hash, the record is read whole and every slot holds its hash |
| HashCache.ReadRecordUnmatched | src/cache.rs:38-41 | for a path absent from the node map only the length and path bytes are consumed; the count and hashes are read as the next record |
| HashCache.ReadAllTruncated | src/cache.rs:35 | a cache shorter than one length field (1 to 7 bytes) makes the reader fail |
| HashCache.ReadAllPathTruncated | src/cache.rs:35-38 | a length field that promises more path bytes than follow makes the reader fail |
| HashCache.ReadAllInvalidNodeIndex | src/cache.rs:41-45 | a mapped path whose index lies outside the graph makes the reader fail with that path and index, whatever follows |
| HashCache.ReadAllCountTruncated | src/cache.rs:41-47 | a mapped path followed by fewer than eight bytes, so no whole count field, makes the reader fail |
| HashCache.ReadAllHashesTruncated | src/cache.rs:47-54 | a mapped path whose count asks for more hashes (at most one per command) than the remaining bytes hold makes the reader fail |
| HashCache.ReadAllAfterRecords | src/cache.rs:33-56 | records the node map takes in are read one after another, and what follows is read into the table they leave, so a failure in a later record fails the whole read |
| HashCache.ReadAllInvalidUtf8 | src/cache.rs:38 | a path that is not UTF-8 makes the reader fail |
| HashCache.ReadInto | src/cache.rs:28-56 | the `offset` loop of both readers computes `ReadAll`: the same table or the same panic |
| HashCache.ReadSlots | src/cache.rs:50-54 | the hash loop computes `ReadHashes` and returns the offset after the last hash read |
| HashCache.ReadAllRecords | src/cache.rs:10-56 | reading a cache whose records all match the node map with one slot per hash stores every record's hashes, later records over earlier ones |
| Cache.AppendRecord | src/cache.rs:17-22 | the loop body appends the path length, the path bytes, the command count and each command's hash, all little-endian |
| Cache.SerializeStep | src/cache.rs:13-22 | each target adds its record when it has commands and adds nothing when it has none |
| Cache.Write | src/cache.rs:10-25 | `write` emits the records of the targets with commands, in graph order |
| Cache.SerializeLength | src/cache.rs:17-22 | the output length is the sum, over targets with commands, of 16 + path bytes + 8 · commands |
| Cache.ReadCache | src/cache.rs:28-56 | `read` succeeds exactly when the decoder does; it then changes only `cached_hash`: paths, dependencies, commands and `hash` fields are kept |
| Cache.Read | src/cache.rs:28-56 | the reader applied to the graph gives `ReadCache` |
| Cache.ReadOfWrite | src/cache.rs:10-56 | `read` of what `write` produced, with the node map of the graph, sets every command's `cached_hash` to `Some(hash)` and changes nothing else |
| Timestamps.NewestInput | src/target.rs:33 | the newest input time is at least every input, is one of them, and is the epoch when there are none |
| Timestamps.Max | src/target.rs:67 | `max` is at least both arguments and equals one of them |
| TargetExec.FirstFalse | src/target.rs:53-64 | the index of the first failing command: all before it succeed, and it fails unless it is the end |
| TargetExec.Launched | src/target.rs:53-64 | the launched commands are a prefix of the due commands |
| TargetExec.RunInOrder | src/target.rs:53-58 | a command loop launches commands in order up to and including the first failure, and reports success exactly when none fails |
| TargetExec.LaunchedConcat | src/target.rs:52-64 | `always_cmds` are launched only when no `cmds` command failed, and the whole run succeeds exactly when both loops do |
| TargetExec.Execute | src/target.rs:21-68 | the due commands are `cmds`, only when the newest input is newer than the path, then `always_cmds`; the first failure returns None and launches nothing after it; success returns max(newest input, final path time) |
| TargetExec.UpToDateRunsOnlyAlways | src/target.rs:52-64 | a target at least as new as all its inputs launches only a prefix of its `always_cmds` |
| TargetExec.StaleRunsCmdsFirst | src/target.rs:52-64 | a stale target launches all its `cmds` in order before any `always_cmds`, unless one fails, which is then the last launched |
| Builder.FirstFailure | src/builder.rs:44-69 | the first command that must run and fails: every earlier command either need not run or succeeds |
| Builder.FirstFailureIs | src/builder.rs:44-69 | the first failure is the unique index before which nothing that must run fails and at which something that must run fails |
| Builder.RunCommands | src/builder.rs:44-70 | the command loop fails exactly at the first failure; each command that ran successfully before it now holds its current hash and the others keep theirs; the launched commands are those that must run, up to and including the failing one |
| Builder.Execute | src/builder.rs:25-73 | a command reruns iff the newest input is newer than the path, it has no stored hash, or its hash changed; the target is updated as `RunCommands` says; success returns max(newest input, final path time) |
| Builder.RefreshedStep | src/builder.rs:55-62 | one command after another: a command that must run and succeeds gets its current hash, a skipped command keeps its stored hash, and only the former is launched |
| Builder.RefreshedIsUpToDate | src/builder.rs:44-62 | after a run with no failure, no command must run again until an input is newer or a command changes |
| Builder.NothingToRun | src/builder.rs:44-70 | a target none of whose commands must run launches nothing, succeeds and keeps every hash |
| Builder.StoredHashes | src/builder.rs:89-91 | the stored hashes exist exactly when every command has one, and they are those hashes in order |
| Builder.EntryOf | src/builder.rs:82-91 | the record of one target is written only when its first command has a hash, and it fails when a later command has none |
| Builder.AppendRecord | src/builder.rs:86-91 | the loop body appends the target's record, or panics on the first command without a hash |
| Builder.SerializeStep | src/builder.rs:79-93 | each target adds its record when written, panics on a missing hash, and adds nothing when its first command has no hash |
| Builder.WriteHashCache | src/builder.rs:77-95 | `write_hash_cache` emits, in graph order, the records of the targets whose first command has a hash, or the first panic |
| Builder.EntriesErrSticky | src/builder.rs:79-93 | once a target panics, every longer prefix of the graph fails with that panic |
| Builder.WriteFailsOnMissingHash | src/builder.rs:89-91 | a written target with any command without a hash makes `write_hash_cache` panic |
| Builder.EntriesOk | src/builder.rs:89-90 | when each target's commands all have a hash or none has, `write_hash_cache` does not panic |
| Builder.ReadCache | src/builder.rs:98-128 | `read_hash_cache` succeeds exactly when the decoder does; it then changes only the stored hashes |
| Builder.ReadHashCache | src/builder.rs:98-128 | the reader applied to the graph gives `ReadCache` |
| Builder.Cleared | src/builder.rs:168 | a graph whose hashes were all forgotten, as `build_graph` leaves it, takes back every hash from the original graph's table |
| Builder.ReadOfWrite | src/builder.rs:77-128 | reading back what `write_hash_cache` wrote, with the graph's node map, leaves the graph unchanged |
| Builder.RestoreOfWrite | src/builder.rs:77-128 | reading what `write_hash_cache` wrote into the same graph with all hashes forgotten restores every hash, when each target's commands all had a hash or none had |
| Builder.Push | src/builder.rs:154 | adding the pending target appends it, with its inputs, at index `|graph|` and maps its path to that index |
| Builder.WithArg | src/builder.rs:170-176 | `arg` appends the value to the last command's arguments and leaves the other commands unchanged |
| Builder.Step | src/builder.rs:141-178 | one line: blank lines change nothing, every panic carries the line's number, and a line panics exactly when its value is empty, its keyword is none of `path`, `dep`, `run` and `arg`, it is a `dep` on a path missing from the node map, or it is an `arg` with no pending command; an empty value reports `MissingValue` and an unknown keyword `UnknownKeyword` |
| Builder.ReadLine | src/builder.rs:141-178 | the loop body for one line computes `Step` |
| Builder.BuildGraph | src/builder.rs:130-184 | the loop over the lines followed by adding the last target computes `BuildGraphOf`: the graph and node map, or the first panic |
| Builder.PushValid | src/builder.rs:152-157 | pushing a target keeps inputs backward, the node map sound and complete, and paths trimmed |
| Builder.StepValid | src/builder.rs:141-178 | each accepted line keeps the graph invariant: every input names an earlier node, the node map sends each path to a node with that path, every node is mapped and every path is a non-empty trimmed value |
| Builder.StepsValid | src/builder.rs:138-180 | the invariant holds after every accepted prefix of the lines |
| Builder.BuildGraphWellFormed | src/builder.rs:130-184 | the returned graph has at least one node, each input of a node is an earlier node (so it has no cycle), the node map sends each path to a node with that path and maps every node, and every path but possibly the last is a non-empty trimmed value |
| Builder.FirstPanicWins | src/builder.rs:138-180 | the first line that panics decides the panic `build_graph` reports, with that line's number |
| Builder.MapOfLastIndex | src/builder.rs:154 | inserting the paths in graph order into `node_map` maps exactly those paths, each to the index of its last occurrence |
| Builder.LaterSectionsEmpty | src/builder.rs:155-156 | the sections after the pending target have no inputs and no commands yet |
| Builder.FirstPathDescribes | src/builder.rs:149-158 | the first `path` line closes no target: the pending target keeps the inputs and commands of the lines before it and takes the path |
| Builder.NextPathDescribes | src/builder.rs:149-158 | a later `path` line adds the pending target to the graph, maps its path to its index, and starts an empty target with the new path |
| Builder.StepDescribes | src/builder.rs:141-178 | each accepted line keeps the state equal to its description by sections: a `path` line closes the pending target only when its path is not empty, `dep` appends the index of the last closed target with that path, `run` appends a command with no arguments and no hash, `arg` extends the last command |
| Builder.StepsDescribe | src/builder.rs:138-180 | after any accepted prefix, the graph holds the closed sections in order, the pending path, inputs and commands are the last section's, and the node map sends each closed path to its last index |
| Builder.BuildGraphDescribed | src/builder.rs:130-184 | the returned graph has one target per section in file order, each with its `path` value (the first also takes the lines before its `path` line, and has the empty path when there is none), the commands of its `run` lines with the values of the `arg` lines after each as arguments and no hash, and the indices of its `dep` values; the node map sends each path to the last target with that path |
| Builder.MissingValueFails | src/builder.rs:143-146 | a keyword with nothing after it makes `build_graph` panic at that line, naming the keyword |
| Builder.UnknownDependencyFails | src/builder.rs:159-164 | a `dep` naming no closed target's path makes `build_graph` panic at that line with the value |
| Builder.NoRunNoCmds | src/builder.rs:167-174 | a section with no `run` line among the lines read so far has no command yet |
| Builder.ArgBeforeRunFails | src/builder.rs:170-174 | an `arg` line with no `run` line before it in its section makes `build_graph` panic at that line |
| Builder.UnknownKeywordFails | src/builder.rs:177 | a keyword other than `path`, `dep`, `run` and `arg`, with a value, makes `build_graph` panic at that line, naming the keyword |
| Folds.RunErrSticky | src/builder.rs:138-180 | once a line panics, no later line is read and the result stays that panic |
| Folds.RunFailsAt | src/graph/mod.rs:16-56 | a panic at line k, after an accepted prefix, is the result of the whole loop |
| Text.FirstWord | src/builder.rs:141 | `split_whitespace().nth(0)` is None exactly on blank lines, and otherwise a non-empty word without whitespace |
| Text.Trim | src/builder.rs:143 | `trim_start().trim_end()` is empty exactly when the text is all whitespace, and otherwise neither starts nor ends with whitespace |
| Text.Lines | src/graph/mod.rs:16 | `str::lines` gives at most as many lines as characters, none containing a newline |
| Text.LinesOfJoinLines | src/graph/mod.rs:16 | lines each followed by a newline are split back into the same lines |
| Text.LeadingWhitespace | src/graph/mod.rs:22 | the length of the leading whitespace run: all whitespace before it, and a non-whitespace character at it unless it is the end |
| ConfigGraph.Classify | src/graph/mod.rs:19-27 | a line is blank exactly when it is all whitespace; otherwise its keyword is the first word, and the value is missing exactly when only whitespace follows the keyword's length (both directions); a value starts with a non-whitespace character found after `keyword.len()` characters, and `raw` is the text after them |
| ConfigGraph.Step | src/graph/mod.rs:19-55 | one line: blank lines change nothing, every panic carries the line's number, and it panics exactly when the keyword has no value, is none of `path`, `dep` and `run`, is a `path` already taken, or is a `dep` or `run` before any path |
| ConfigGraph.ReadLine | src/graph/mod.rs:19-55 | the loop body for one line computes `Step` |
| ConfigGraph.FromConfig | src/graph/mod.rs:12-58 | the loop over the lines computes `FromConfigOf`: the node map, or the first panic |
| ConfigGraph.PathStep | src/graph/mod.rs:30-35 | a `path` line with a new value adds an empty node for it and makes it the active path |
| ConfigGraph.SectionStep | src/graph/mod.rs:38-49 | a `dep` or `run` line adds its value, or its raw text, to the active node only |
| ConfigGraph.StepDescribes | src/graph/mod.rs:29-52 | each accepted line keeps the state equal to its description by the lines read so far |
| ConfigGraph.StepsDescribe | src/graph/mod.rs:16-56 | after any accepted prefix, the nodes are exactly the declared paths, no path is repeated, and each node holds its section's inputs and commands in file order |
| ConfigGraph.FromConfigDescribed | src/graph/mod.rs:12-58 | the returned keys are exactly the `path` values, none declared twice, and each node holds, in file order, the `dep` values and the raw `run` text of its section |
| ConfigGraph.SectionBeforePathFails | src/graph/mod.rs:38-49 | a `dep` or `run` line before any `path` makes `from_config` panic at that line |
| ConfigGraph.DuplicatePathFails | src/graph/mod.rs:30-35 | a path declared a second time makes `from_config` panic at that line |
| ConfigGraph.MissingValueFails | src/graph/mod.rs:22-25 | a keyword followed only by whitespace makes `from_config` panic at that line, naming the keyword |
| ConfigGraph.UnknownKeywordFails | src/graph/mod.rs:51 | a keyword other than `path`, `dep` and `run`, with a value, makes `from_config` panic at that line, naming the keyword |
| Fibonacci.FibonacciAsWritten | tests/minimal_project/src/fibonacci.cpp:3-12 | the loop as written returns 0 for n ≤ 0, 1 for n = 1 and 2^(n−2) for n ≥ 2, for every n whose result fits in an `int` |
| Fibonacci.Fibonacci | tests/minimal_project/src/fibonacci.cpp:3-12 | the loop that adds the two previous numbers returns the n-th Fibonacci number for every n whose result fits in an `int` |
| Fibonacci.DoublingFitsUpTo32 | tests/minimal_project/src/fibonacci.cpp:3-12 | the result as written fits in a 32-bit `int` exactly when n ≤ 32 |
| Fibonacci.FibFitsUpTo46 | tests/minimal_project/src/fibonacci.cpp:3-12 | the Fibonacci number fits in a 32-bit `int` exactly when n ≤ 46 |
| Fibonacci.DoublingExceedsFib | tests/minimal_project/src/fibonacci.cpp:7-11 | from n = 4 on, the loop as written returns more than the Fibonacci number |
| Fibonacci.DoublingIsFibOnlyUpTo3 | tests/minimal_project/src/fibonacci.cpp:7-12 | the loop as written agrees with Fibonacci exactly when n ≤ 3; n = 4 gives 4 where Fib(4) = 3 |

## Left out

- `src/threadpool.rs` is not part of this model. Its subject is concurrency:
  threads, channels and shared locks.
- `src/main.rs` is not part of this model. It covers argument handling,
  file reading and printing.
- `src/graph/node.rs` is not part of this model. It only looks up
  timestamps and spawns commands.
- File and process I/O become parameters:
  - `fs::metadata` timestamps, including the panic when a modification time
    is unreadable.
  - `Command::status`, where a failed exit and a spawn error are both
    "does not succeed".
  - `cache.write(...).unwrap()`: the writers return the bytes.
  - `println!` diagnostics.
- `DefaultHasher` (SipHash) is a parameter. The model does not say which
  hash it computes. For `src/parser.rs` the only assumption is that the hash
  is a function of the executable and the arguments, in order.
- The internals of `paragraphs::Graph` are not modelled. This covers
  `compile`, recipes and threaded execution; the graph is the sequence of
  added nodes.
- `Parser.Parser`: the lexer is lazy in the source, but the model takes
  the whole token stream up front. The lexer never fails, so the nodes and
  panics are the same.
- `Builder.Step`: string offsets are counted in characters, while the
  source slices bytes. They agree on ASCII lines. The panic of
  `line[keyword.len()..]` at a non-character boundary is not modelled.
- `ConfigGraph.Classify`: the value index mixes a byte length
  (`keyword.len()`) with a character count (`position`). The model counts
  both in characters, so lines with non-ASCII characters before the value
  may differ from the source.
- `Builder.MissingValue` and `ConfigGraph.MissingValue` carry the line
  number and the keyword. The messages of src/builder.rs:145 and
  src/graph/mod.rs:24 pass the keyword where the line number belongs and
  the line number where the keyword belongs; the message text is not
  modelled.
- `ConfigGraph.PathNode` keeps `dep` values as text. The `PathNode` type
  that `src/graph/mod.rs` imports is not part of this model. Its shape
  follows `src/main.rs:11-15`, where inputs are references to nodes.
- `Targets.HashCommand`: the `HashCommand` type of `crate::target` is not
  part of this model. It is given the fields that `src/cache.rs` and
  `src/parser.rs` use: the command, `hash` and `cached_hash`.
- `HashCache.Fits` and `Cache.Write`: path lengths and command counts are
  assumed to fit in a `u64`, as a 64-bit `usize` does. The `as u64` casts
  are therefore not modelled as truncating.
- `Token.Lookup`: `usize` is taken to be 64 bits wide.
- `Text.IsWhitespace` lists the Unicode White_Space characters explicitly.
  Normalisation and other Unicode tables are not modelled.
- `Fibonacci.FibonacciAsWritten` requires n ≤ 32 and `Fibonacci.Fibonacci`
  requires n ≤ 46. Beyond those bounds the signed `int` arithmetic of the
  C++ code overflows, which is undefined behaviour. `DoublingFitsUpTo32` and
  `FibFitsUpTo46` show that these bounds are exact.
- The lexer's `Peekable<Chars>` is a sequence of the unconsumed characters,
  and `peek_char` returns the character rather than a reference to it.

## Findings

| source | as written | input that shows it | evidently intended | confidence | as-written member | corrected member |
|---|---|---|---|---|---|---|
| tests/minimal_project/src/fibonacci.cpp:7-11 | the loop adds `prev1` to `acc` and copies `acc` back into `prev1`, so both double every round and `prev2` is never read; the result is 2^(n−2) for n ≥ 2 | n = 4 returns 4 | the Fibonacci number Fib(4) = 3: `acc = prev1 + prev2; prev2 = prev1; prev1 = acc` | high (not executed) | Fibonacci.FibonacciAsWritten, Fibonacci.DoublingIsFibOnlyUpTo3 | Fibonacci.Fibonacci |
