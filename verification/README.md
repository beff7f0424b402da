# redis-plus in Dafny

A model of the path every write takes through redis-plus, a small Redis-compatible
server, and proofs of what that path promises: bytes arrive and are framed into
commands, commands change a store with expiring keys, what they did is compiled into
a canonical command with an absolute deadline, and that command is appended to a log,
streamed to replicas and replayed later, on another store, at another time. Snapshots
(the RDB format with its CRC-64) and the glob matcher behind `KEYS` are modelled too.

`dafny verify dfyconfig.toml` checks the whole project.

## How it fits together

Everything about data is said in terms of one abstraction, the *view* of a store at a
time `t`: the map from each key not yet expired at `t` to its value and deadline
(`Keyspace.View`). `Fade(v, t)` is what remains of a view later on, and
`Within(a, b)` says that `a` shows nothing `b` does not, with equal values and deadlines.
Lazy deletion, active expiry and dead keys still stored are invisible at that level, and
the classes that update things in place (`Store`, `CommandTable`, `RespHandler`, `Aof`,
`Reader`, `Buffer`, `Session`, `SyncReader`, `ReplicationMaster`) are each proved against
it or against a function on byte sequences.

The main results, in the order they build on one another:

- **Framing.** A parsed command depends only on the bytes it consumed, and a stream of
  commands is dispatched in the same way however it is cut into reads. This is false of
  a command line longer than the parser's guards, and `ChunkingExactly` says precisely
  which single requests survive every split. What the parser accepts is characterised in
  both directions, by the shape of the bytes.
- **Matching.** The matcher that remembers only the last `*` decides exactly the
  token-level definition that tries every star, within `(|str| + 1) * (|pattern| + 1)`
  turns of its loop.
- **Store.** Every operation is an operation on the timed map; reaping never shows;
  cycles of active expiry remove only dead keys and, when all are dead, exactly as many
  as their bounds allow.
- **Serving.** Bytes cut into reads in any way are one history of commands. REPLICAOF
  changes the role in the middle of it; what is refused, run and propagated follows the
  role of the moment, no next command can change the view if and only if the server is a
  replica then, and what was propagated is in all cases a log that tells the view.
- **Compilation.** Each command either leaves the view alone or propagates one canonical
  command that has the same effect, one that replicas never skip in their stream.
- **Late replay.** Running the canonical log at any later, non-decreasing times never
  shows a key, value or deadline the original does not. It is *not* always equal: a
  PERSIST or a later EXPIRE replayed after the old deadline finds the key gone
  (`LatePersistLosesTheKey`). `LateReplayExactly` and `AnyLateReplayExactly` give the
  exact conditions for equality, for given times and for all times.
- **Options.** The options of SET combine by a condition on pairs: `SetLaws` says exactly
  which lists of them are accepted, what each accepted list does in whatever order, and
  which error the first offender earns.
- **Snapshots.** What is written reads back; no proper prefix is accepted; a change
  confined to any eight consecutive bytes before the trailer is rejected whenever a
  checksum was stored. The table-driven checksum is the remainder of polynomial long
  division. `RdbForms` says exactly which payloads of any writer are accepted, and what
  records they yield.
- **Restart.** A log cut at any byte restores exactly the whole commands before the cut,
  and a rewritten log and a snapshot restore the same view at every later time.
- **Replication.** A state machine over master writes, PSYNC, byte delivery in arbitrary
  pieces, parsing, posted tasks, acknowledgements, local expiry, refused client writes,
  disconnects and resyncs. In every reachable state a replica shows no more than the
  master did at the stream position it has applied, and no byte of the stream is lost or
  counted twice. From a resync on it shows exactly that, state by state, if and only if no
  posted write is run after the deadline it moves (`Agreement.ReplicaAgreesExactly`), and
  every run can be continued to one that loses a key. A link that is up is never stuck,
  its own steps come to an end, and every run can be continued to a state in which a given
  replica shows exactly what the master shows (`CatchingUp`) and the master knows it
  (`Acknowledging`): the offset it has on record is always the one the replica had when it
  sent it.

Choices worth knowing when reading the files:

- The clock is a parameter: one reading per command, natural and never decreasing. In
  `Replication` every server has its own; no replica's may be behind the master's
  (`NoneBehind`): one that runs a write before the time the master made it may show keys
  the master has let die by then, and `BehindExactly` says exactly when.
- Hash-map iteration order and bucket layout are arbitrary parameters or choices.
- Sums that would leave 64 bits are undefined in the source. `Commands.InRange` names the
  commands for which no such sum arises, and is assumed of commands that are run.
- `SET ... PXAT -1` stores no deadline, because -1 is also the mark for "none"; the model
  does what the code does (`CommandLaws.SetExpiryMeans`).
- `include/rp/resp.hpp` says a connection must be closed after a protocol error. The
  handler instead keeps it, drops what was buffered and replies; the model follows the
  handler.
- Positions and lengths in a snapshot are naturals. Where the 64-bit sum of the source
  would wrap, the model stops with the result `Wrapped`, which claims nothing.
- Class ranges in glob patterns compare signed `char` values.

## Model

| member | source | states |
|---|---|---|
| `ByteStrings.ParseMagnitude` | src/resp.cpp:35-44 | the digit loop accepts exactly the digit strings whose value fits 63 bits, and returns that value; overflow is caught before it happens |
| `ByteStrings.ParseIntLoop` | src/resp.cpp:24-47 | sign, digits and overflow check of a protocol integer, as one definition |
| `ByteStrings.ToInt64Loop` | src/commands.cpp:36-49 | the same for integer arguments of commands, with their own length guard |
| `ByteStrings.PrintedIntegerReadsBack` | src/commands.cpp:36-49 | a printed 64-bit integer reads back as itself if and only if it is not the smallest one |
| `ByteStrings.NumberTextReads` | src/resp.cpp:24-47 | a protocol integer written with or without a sign and with any number of leading zeros reads as that number, and is refused exactly when its magnitude needs more than 63 bits |
| `ByteStrings.OnlyNumberTextReads` | src/resp.cpp:24-47 | nothing else reads as an integer: any text that does is a sign or none, zeros, and the digits of the value |
| `ByteStrings.ArgumentReads` | src/commands.cpp:36-49 | the same for arguments of commands, which are refused beyond twenty bytes whatever their value |
| `ByteStrings.PrintedIntegerReads` | src/commands.cpp:36-49 | the printed form of any integer at all reads as itself when its magnitude has 63 bits and as nothing otherwise |
| `Resp.SplitLine` | src/resp.cpp:67-81 | the word loop of an inline request yields its words and nothing between them |
| `Resp.ParseInlineRequest` | src/resp.cpp:51-82 | the inline parser, both length guards included |
| `Resp.ParseOneBulk` | src/resp.cpp:120-148 | one bulk string of a request: header guard, length limits, missing terminator, and what counts as incomplete; which bytes it takes off is said by ParsedIsWellFormed and WellFormedParses |
| `Resp.ParseRequest` | src/resp.cpp:86-156 | the request parser as a total function of the bytes that have arrived; what it accepts is said by ParsedIsWellFormed, WellFormedParses and InlineIsSpread, what it refuses by the five rows after them |
| `Resp.EncodeCommand` | src/aof.cpp:54-58 | the encoder loop, over the reply encoders it uses |
| `Resp.ConsumedWithinInput` | src/resp.cpp:86-156 | a parsed request consumed at least one byte and no more than there were |
| `Resp.ParsedIsWellFormed` | src/resp.cpp:86-156 | whatever parses as a multibulk request is one: a count line, and for each argument a length line whose number is its length, the argument, and CRLF; the bytes consumed are exactly these |
| `Resp.WellFormedParses` | src/resp.cpp:86-156 | and every such request parses as its arguments, whatever follows it and however its numbers are written |
| `Resp.InlineIsSpread` | src/resp.cpp:51-82 | whatever parses as an inline request is its arguments with white space around and between them, and CRLF |
| `Resp.NothingAskedFor` | src/resp.cpp:99-114 | a count of zero or less is a request for nothing |
| `Resp.BadCountRefused` | src/resp.cpp:99-106 | a count that is no number or above 1048576 is an error once its line is there |
| `Resp.DollarExpected` | src/resp.cpp:119-124 | a first byte that is no dollar where a bulk string belongs is the error that names it |
| `Resp.BadLengthRefused` | src/resp.cpp:126-138 | a bulk length that is no number, negative or above 536870912 is an error once its line is there |
| `Resp.AwaitsLine` | src/resp.cpp:51-97 | without an end of line more is awaited, up to 64 bytes of a count and 65536 of an inline command, and an error beyond |
| `Resp.OkIsStable` | src/resp.cpp:86-156 | a parsed request depends only on the bytes it consumed: any input that agrees on them parses the same |
| `Resp.EncodeParses` | include/rp/resp.hpp:56-62 | an encoded command followed by anything parses as that command if and only if it keeps the argument and size limits |
| `Resp.BulkCut` | src/resp.cpp:120-148 | what a bulk string cut short parses as: incomplete, or an error exactly when its header line has outgrown the guard |
| `Resp.SplittableExactly` | src/resp.cpp:86-156 | every proper prefix of a request is incomplete if and only if its header lines stay within the guards |
| `Resp.EncodedIsSplittable` | src/resp.cpp:86-156 | every command the server itself encodes is incomplete at every proper prefix |
| `Resp.PaddedHeaderDependsOnSplit` | src/resp.cpp:90-98 | a concrete request that parses when whole and is an error when its first 65 bytes arrive alone |
| `Resp.InlineParses` | src/resp.cpp:51-82 | words with any white space between them, and any or none at both ends, come back as those words, for every line within the limit that is not a multibulk header |
| `Resp.ParsedWithinLimits` | src/resp.cpp:86-156 | every request that parses, inline or multibulk, keeps the limits on count and size, so it can be encoded again |
| `Framing.DrainTurn` | src/commands.cpp:434-465 | one turn of any loop that parses from the front of a buffer: what it has done and what it has left still make up the whole |
| `Framing.DrainedWithinLimits` | src/commands.cpp:434-465 | so does every command drained from any buffer, and none is empty |
| `Framing.DrainOfCutStream` | src/commands.cpp:434-465 | a stream cut at any byte yields exactly the whole requests before the cut and leaves exactly the rest, with no error |
| `Framing.FeedTurn` | src/commands.cpp:434-465 | one read of any loop over chunks: what has been run, reported and kept still makes up the whole |
| `Framing.DrainToError` | src/commands.cpp:434-465 | whole requests before something that is none all come out, and then the error |
| `Framing.ErrorEndsTheRead` | src/commands.cpp:441-448 | what is left of the read that held a protocol error is gone, and the next read starts afresh |
| `Framing.ChunkingIsInvisible` | src/commands.cpp:434-465 | every way of splitting requests and an unfinished tail into reads dispatches the same commands in order and leaves the tail buffered |
| `Framing.ChunkingExactly` | src/commands.cpp:434-465 | a single request is handled alike under every split if and only if its header lines stay within the guards |
| `Framing.ChunkedCommands` | src/aof.cpp:54-58 | any encoded commands plus part of one more, in any pieces: those commands, that part left over |
| `Framing.CommandsWithinIsLongest` | src/aof.cpp:163-199 | the number of commands counted as whole within n bytes is the largest that fits |
| `Framing.DrainOfCutLog` | src/aof.cpp:163-199 | log bytes cut anywhere yield the longest list of whole commands and exactly the remaining bytes, never an error |
| `Glob.ScanClass` | src/resp.cpp:185-213 | the class loop decides membership in the class token it reads, and ends where that token ends |
| `Glob.TryOne` | src/resp.cpp:180-226 | one pattern element against one byte: accepted exactly when its token accepts it; what the bytes of a pattern stand for is said by ReadableExactly and the rows after it |
| `Glob.GlobMatch` | src/resp.cpp:167-240 | true if and only if the tokens match the string, by a definition that lets every star stand for any stretch; loop turns are bounded by the product of the lengths; what plain text, a prefix, wildcards, classes and ranges match is said by OrdinaryMatchesItself and the rows after it |
| `Glob.FirstStarSpent` | src/resp.cpp:175-179 | when a second star is reached, every match the first star could still give is one the second gives, so the first can be forgotten |
| `Glob.NothingLeft` | src/resp.cpp:229-239 | once the string is used up, letting the star swallow more cannot help |
| `Glob.OnMismatch` | src/resp.cpp:229-235 | backtracking to the last star keeps the answer; without a star a mismatch is final |
| `Glob.SpellingReadsBack` | src/resp.cpp:167-240 | every list of spellable tokens, written out as a pattern with escapes, is read as those tokens |
| `Glob.ReadableExactly` | src/resp.cpp:167-240 | a list of tokens is what some pattern is read as if and only if all of its tokens are spellable |
| `Glob.OrdinaryMatchesItself` | src/resp.cpp:167-240 | text without a star, question mark, bracket or backslash matches exactly itself |
| `Glob.PrefixPattern` | src/resp.cpp:167-240 | such text followed by a star matches exactly the strings that start with it |
| `Glob.SingleWildcards` | src/resp.cpp:167-240 | a star alone matches every string, a question mark exactly those of one byte |
| `Glob.ClassPattern` | src/resp.cpp:176-224 | a class of plain members matches exactly the one-byte strings of its members, and a negated one exactly the others |
| `Glob.RangePattern` | src/resp.cpp:176-224 | a class of one range matches exactly the one-byte strings between its ends in the order of signed char, whichever end comes first |
| `Glob.UnclosedClass` | src/resp.cpp:192-218 | a class that is never closed reaches to the end of the pattern |
| `Glob.DashAtTheEnd` | src/resp.cpp:196-204 | a dash just before the bracket stands for itself |
| `Glob.LoneBackslash` | src/resp.cpp:214-226 | a backslash with nothing behind it stands for itself |
| `Glob.EscapedMatchesItself` | src/resp.cpp:214-226 | a string with every byte escaped matches that string and no other |
| `Keyspace.ViewFades` | include/rp/store.hpp:109-112 | with the store untouched, the view later is what is left of the view now |
| `Keyspace.ReapingIsInvisible` | include/rp/store.hpp:114-117 | removing keys already dead keeps the index consistent and changes no view, now or later |
| `Keyspace.StoredView` | src/store.cpp:27-35 | storing a value with a deadline, or removing one, is one update of the view |
| `Keyspace.LoadingRestores` | src/store.cpp:186-191 | loading records that list a view, in any order, into an empty store gives that view as it has faded |
| `Sampling.TakeFrom` | src/store.cpp:123-126 | the inner loop fills the sample up to its bound |
| `Sampling.Collect` | src/store.cpp:110-136 | the walk over buckets from the cursor, wrapping once, returns the first n keys of the rotated layout and leaves the cursor just past the last bucket visited, no more being visited than needed |
| `Sampling.SampleOf` | src/store.cpp:110-136 | a sample holds exactly the smaller of n and the index size, all distinct, all from the index |
| `Sampling.ErasedArranges` | src/store.cpp:157 | erasing keys from the buckets leaves a layout of the remaining index |
| `Storage.Store.constructor` | include/rp/store.hpp:54-55 | a new store shows nothing, ever |
| `Storage.Store.Remove` | include/rp/store.hpp:114-117 | both maps lose the key, and the index stays inside the stored keys |
| `Storage.Store.Get` | src/store.cpp:16-25 | the live value; reaping the dead key does not show |
| `Storage.Store.Set` | src/store.cpp:27-35 | the key holds the value with its deadline, or without one; a past deadline shows nothing |
| `Storage.Store.Erase` | src/store.cpp:37-43 | the key is gone, and the result says whether it was live |
| `Storage.Store.Contains` | src/store.cpp:45 | whether the key is live |
| `Storage.Store.Pttl` | src/store.cpp:47-57 | time left, -1 without deadline, -2 without key; never zero or negative for a live deadline |
| `Storage.Store.ExpireAt` | src/store.cpp:59-72 | applies to live keys only; a deadline already reached removes the key |
| `Storage.Store.Persist` | src/store.cpp:74-82 | applies to live keys with a deadline only, and takes it away |
| `Storage.Store.Clear` | include/rp/store.hpp:79-83 | nothing is shown at any time |
| `Storage.Store.Keys` | src/store.cpp:84-99 | each live key the token-level definition matches, exactly once, and no other |
| `Storage.Store.Size` | src/store.cpp:101-108 | the number of live keys, although dead ones may be stored |
| `Storage.Store.Snapshot` | src/store.cpp:173-184 | lists each live key exactly once with its value and deadline |
| `Storage.Store.LoadRecord` | src/store.cpp:186-191 | adds the record unless it is already dead, in which case an older value under the key is left as it was |
| `Storage.Store.SampleExpiring` | src/store.cpp:110-136 | the sample is the keys met from the cursor on, wrapping once, as many as asked for or there are, and the cursor ends just past the last bucket visited |
| `Storage.Store.OnePass` | src/store.cpp:146-160 | one pass removes exactly the dead among that sample, and the next begins just past it |
| `Storage.Store.ActiveExpireCycle` | src/store.cpp:138-171 | removes only dead keys, at most sample size times passes, and exactly the smaller of that and the index when all are dead and the threshold is below 100; each pass takes up where the last left off, and is followed by another exactly when more of its sample was dead than the configured share, keys are left, and passes are |
| `Storage.ShareExactly` | src/store.cpp:162-167 | comparing with the threshold rounded down is comparing with the share itself |
| `Storage.Store.ReapExpired` | src/store.cpp:193-203 | removes only dead keys, as many as there are up to the limit |
| `Storage.Store.CycleUntilClean` | src/store.cpp:138-171 | when all indexed keys are dead, repeated cycles over changing layouts end with an empty index |
| `Storage.CycleStep` | src/store.cpp:138-171 | what a pass adds to the account a cycle keeps: how many removed, all dead, and none twice |
| `Commands.WriteCommandsWrite` | src/replication.cpp:101-106 | the list of write commands names exactly the commands that can be dirty |
| `Commands.CanonicalSetReads` | src/commands.cpp:129-134 | a canonical SET stands for putting that value with that deadline, for every key, value and deadline |
| `Commands.SetCompiles` | src/commands.cpp:73-138 | SET with any options: unchanged view, or one canonical SET with the same effect now and later |
| `Commands.ExpireCompiles` | src/commands.cpp:182-203 | the four EXPIRE commands: unchanged view, or one PEXPIREAT with the same effect |
| `Commands.DelCompiles` | src/commands.cpp:146-157 | DEL propagates itself exactly when it removed something |
| `Commands.PersistCompiles` | src/commands.cpp:214-222 | PERSIST propagates itself exactly when it took a deadline away |
| `Commands.CommandCompiles` | src/commands.cpp:291-426 | any command: not dirty leaves the view as it is at all later times; dirty propagates a canonical write with the same effect |
| `Commands.CanonicalRuns` | src/commands.cpp:291-426 | dispatching a canonical command at any time does exactly the write it stands for at that time |
| `Commands.RunKeepsStorable` | src/commands.cpp:291-426 | commands within the protocol limits keep every key, value and deadline writable in them |
| `Commands.ReplicaIsReadOnly` | src/commands.cpp:298-307 | no client command, whatever its arguments, changes the view of a replica or is propagated by it |
| `CommandLaws.ExpireMeans` | src/commands.cpp:182-203 | by name: EXPIRE, PEXPIRE, EXPIREAT and PEXPIREAT set the deadline their unit and base mean, remove the key when it has passed, refuse what cannot be milliseconds, and touch no other key |
| `CommandLaws.SetExpiryMeans` | src/commands.cpp:79-100 | by name: EX, PX, EXAT and PXAT of SET, their refusals, and the one value read as no deadline |
| `CommandLaws.ExpireNeedsInteger` | src/commands.cpp:182-192 | a time that is not an integer is refused and changes nothing |
| `CommandLaws.TtlReadsExpire` | src/commands.cpp:205-212 | TTL returns the seconds EXPIRE was given and PTTL the milliseconds |
| `CommandLaws.TtlRoundsUp` | src/commands.cpp:205-212 | TTL never reports less than is left and never a whole second more; -1 without a deadline, -2 without the key |
| `CommandLaws.PersistUndoesExpire` | src/commands.cpp:214-222 | PERSIST takes any deadline away and changes nothing else |
| `CommandLaws.GetReadsSet` | src/commands.cpp:140-144 | GET returns what SET stored, and a plain SET clears the deadline |
| `CommandLaws.KeepTtlKeeps` | src/commands.cpp:123-127 | SET with KEEPTTL changes the value and not the deadline |
| `CommandLaws.ConditionalSet` | src/commands.cpp:117-121 | NX writes only what is missing, XX only what is there |
| `SetLaws.WordIsOption` | src/commands.cpp:79-115 | a word is read as the option it spells in any letter case, and as none when it spells none |
| `SetLaws.OneEnding` | src/commands.cpp:82-103 | among options that can stand together a deadline is the only one that counts, and there is no KEEPTTL |
| `SetLaws.OneMoreOption` | src/commands.cpp:79-115 | one option read after others: an error exactly when it clashes with one of them or cannot be used itself, and otherwise added to what they asked for |
| `SetLaws.SetCombines` | src/commands.cpp:73-138 | SET with any number of options that can stand together, in any order and any letter case: NX and XX decide whether anything is written, the deadline or KEEPTTL until when, and GET only whether the old value is replied |
| `SetLaws.SetRefuses` | src/commands.cpp:79-115 | the first option that cannot be used or cannot follow the others decides which error is replied, whatever comes after it, and nothing changes |
| `SetLaws.SetAcceptsExactly` | src/commands.cpp:79-115 | SET replies an error if and only if two of its options clash or one cannot be used |
| `CommandLaws.DelRemoves` | src/commands.cpp:146-157 | DEL and UNLINK remove all named keys and count each live one once, however often it is named |
| `CommandLaws.FlushEmpties` | src/commands.cpp:251-256 | FLUSHALL and FLUSHDB leave nothing, reply OK and are dirty, whatever arguments they are given |
| `CommandLaws.ExistsCounts` | src/commands.cpp:159-166 | EXISTS counts a live key as often as it is named |
| `CommandLaws.ExistsAfterDel` | src/commands.cpp:159-166 | EXISTS finds none of the keys a DEL has named |
| `CommandLaws.KeysReported` | src/commands.cpp:168-179 | TYPE says whether the key is live, DBSIZE how many are, KEYS with a star lists them all, and none of them changes anything |
| `CommandLaws.KeysOfPlainText` | src/commands.cpp:173-179 | KEYS with text that holds no special byte lists that key if it is live |
| `CommandLaws.Echoed` | src/commands.cpp:57-66 | PING answers PONG or its argument, ECHO its argument |
| `CommandLaws.ArityExactly` | src/commands.cpp:57-254 | each command given the wrong number of arguments says so and does nothing, and says so only then |
| `CommandLaws.NameInAnyCase` | src/commands.cpp:291-307 | the letter case of a name changes neither what the command does, nor whether a replica refuses it, nor the role it leaves the server in |
| `CommandLaws.ReplicaofPort` | src/commands.cpp:354-366 | REPLICAOF and SLAVEOF with a host and any integer for a port: 1 to 65535 replies OK and makes the server a replica, every other is refused and changes nothing |
| `CommandLaws.NoOnePromotes` | src/commands.cpp:349-353 | REPLICAOF NO ONE in any letter case replies OK and leaves the server a master |
| `CommandTables.ScanSet` | src/commands.cpp:76-115 | the option loop agrees with the recursive reading of the options, refusals included; what that reading means is said by SetLaws.SetCombines and SetLaws.SetRefuses |
| `CommandTables.CommandTable.CmdSet` | src/commands.cpp:73-138 | SET on the store: reply, dirty flag, propagated form and new view; by name in SetLaws.SetCombines and SetLaws.SetRefuses |
| `CommandTables.CommandTable.CmdDel` | src/commands.cpp:146-157 | DEL on the store, one erase per argument, against the set of keys named |
| `CommandTables.CommandTable.CmdExpire` | src/commands.cpp:182-203 | the four EXPIRE commands on the store |
| `CommandTables.CommandTable.CmdPersist` | src/commands.cpp:214-222 | PERSIST on the store |
| `CommandTables.CommandTable.CmdExists` | src/commands.cpp:159-166 | EXISTS counts every argument that is live, and shows no change |
| `CommandTables.CommandTable.CmdRead` | src/commands.cpp:140-212 | reading commands answer from the view and do not change it, whatever they reap |
| `CommandTables.CommandTable.CmdReplicaof` | src/commands.cpp:343-367 | REPLICAOF NO ONE in any case promotes at once, a host with a usable port demotes at once, and anything else leaves the role as it was |
| `CommandTables.CommandTable.Dispatch` | src/commands.cpp:291-426 | dispatch, with the refusal of client writes in the role the server has at that moment, and the role it has afterwards |
| `Replay.LateApply` | src/store.cpp:59-82 | one write done late on a smaller view stays within what the original shows |
| `Replay.LateApplyExactly` | src/store.cpp:59-82 | a write done late gives the same view if and only if it does not move a deadline that had already passed to one still ahead |
| `Replay.EarlyApplyExactly` | src/store.cpp:59-82 | a write done early shows nothing the original does not show after it if and only if nothing it shows is dead by the time of the original |
| `Replay.LogTellsAll` | src/commands.cpp:73-222 | the propagated forms of any client history are canonical and, done at their own times, give the view that history left |
| `Replay.LateReplayWithin` | src/commands.cpp:73-222 | a late replay never resurrects a key, changes a value or extends a deadline |
| `Replay.LateReplayExactly` | src/store.cpp:59-82 | replay at given times agrees after every write if and only if no write comes too late |
| `Replay.LatePersistLosesTheKey` | src/store.cpp:74-82 | for every key, value and deadline, a log whose late replay loses a key the original still shows |
| `Replay.AnyLateReplayExactly` | src/store.cpp:59-82 | replay agrees at all later times if and only if no write lengthens or removes a deadline |
| `Replay.HistoryReplaysWithin` | src/commands.cpp:73-222 | from client commands to late replay in one statement: nothing more than the original store shows |
| `Replay.HistoryReplaysExactly` | src/commands.cpp:73-222 | and exactly the original view when no logged write comes too late |
| `Connection.Buffer.Append` | include/rp/buffer.hpp:21-25 | appends to the queue of unread bytes; less than 8 KiB of consumed prefix is kept after a non-empty append |
| `Connection.Buffer.Consume` | include/rp/buffer.hpp:34-37 | drops bytes from the front, all of them when asked for more than there are |
| `Connection.Buffer.Reclaim` | include/rp/buffer.hpp:51-60 | compaction changes no unread byte |
| `Connection.Session.Flush` | src/asio_server.cpp:92-116 | starts a write of everything waiting unless one is in flight, and then nothing waits without a write; written, in flight and pending remain what was queued, in order |
| `Connection.Session.Reply` | src/asio_server.cpp:74-77 | a reply waits behind all others while its read is in progress, even with no write in flight |
| `Connection.Session.Send` | src/asio_server.cpp:47-56 | queues bytes behind all others, replies of an unfinished read included, leaves a write in flight alone, and closes exactly when the cap is passed |
| `Connection.Session.FinishRead` | src/asio_server.cpp:79-88 | closes exactly when the cap is passed, and otherwise leaves nothing waiting without a write |
| `Connection.Session.OnWritten` | src/asio_server.cpp:105-115 | a write that succeeded accounts for exactly the bytes in flight and goes on with those pending; one that failed has taken some first part of them |
| `Connection.Session.Play` | src/asio_server.cpp:47-116 | under every interleaving of replies, pushes, ends of reads and completions, what the socket has taken is the front of what was queued, the rest is in flight or pending in order, and an open session has queued all of it |
| `Serving.ServingIsAdmitting` | src/commands.cpp:298-307 | serving any history, with the role changed in the middle of it, is running what is not refused, and what is propagated is the log of that |
| `Serving.HistoryIsTold` | src/commands.cpp:434-465 | for any history and any roles meanwhile, what was propagated is a canonical log, and that log carried out at its own times gives the view the history left |
| `Serving.MasterServes` | src/commands.cpp:291-426 | while it is a master a server runs and propagates everything |
| `Serving.ReplicaServes` | src/commands.cpp:298-307 | while it is a replica no run of client commands, well formed or not, changes what a server shows, or makes it propagate |
| `Serving.ReplicaExactly` | src/commands.cpp:298-307 | after any history, no command that could come next changes the view if and only if the server is a replica then |
| `Serving.MasterExactly` | src/commands.cpp:298-307 | after any history, every command that could come next is run if and only if the server is a master then |
| `Serving.ReplicaThroughoutExactly` | src/commands.cpp:298-307 | at no point of a history could a command have changed the view if and only if the server is a replica at every point of it |
| `Serving.PromotedThenWrites` | src/commands.cpp:343-352 | a replica told to follow no one stores and propagates the very next write of its client |
| `Serving.DemotedThenRefuses` | src/replication.cpp:181-196 | a master told to follow another server refuses the very next write of its client |
| `Serving.BatchIsTold` | src/commands.cpp:434-465 | the same for any batch at the readings of a clock, at every later time |
| `Serving.ReplicaBatch` | src/commands.cpp:434-465 | a batch throughout which the server is a replica changes nothing it shows later, and propagates nothing |
| `Handlers.RespHandler.RunOne` | src/commands.cpp:454-461 | one command dispatched in the role of the moment and propagated, carried by what was done before |
| `Handlers.RespHandler.ServeBuffered` | src/commands.cpp:437-462 | the loop over the buffer runs every whole command after those already run, and keeps the rest, or nothing after an error |
| `Handlers.RespHandler.OnData` | src/commands.cpp:434-465 | all whole commands of any bytes run in order, the replies and what is propagated are theirs one by one, and the buffer keeps the rest, or nothing after an error; in whatever roles a canonical log was propagated that tells the new view, and while a replica nothing changed |
| `Handlers.RespHandler.OnReads` | src/asio_server.cpp:63-90 | read after read, the bytes cut in any way: commands, leftover and errors are those of feeding the chunks, and the answers those of one history |
| `Crc64.Reflect` | src/rdb.cpp:43-49 | reverses the low bits and clears the others |
| `Crc64.BuildEntry` | src/rdb.cpp:53-60 | a table entry is eight steps of the reflected register from that byte |
| `Crc64.BuildTable` | src/rdb.cpp:51-64 | all 256 entries |
| `Crc64.ComputeCrc` | src/rdb.cpp:234-241 | the table loop computes the bit-at-a-time checksum for every seed and message |
| `Crc64.TableStepIsEightBits` | src/rdb.cpp:234-241 | one table lookup is eight single-bit steps |
| `Crc64.CrcChains` | src/rdb.cpp:234-241 | the checksum of a concatenation is the chained checksum of its parts |
| `Crc64.CrcIsRemainder` | src/rdb.cpp:41-64 | bit steps from any seed compute the remainder of schoolbook division over GF(2) by the Jones polynomial |
| `Crc64.SameTailKeepsApart` | src/rdb.cpp:234-241 | different running values stay different under any common tail |
| `Crc64.BurstDetected` | src/rdb.cpp:234-241 | messages that differ only within eight consecutive bytes have different checksums, from any seed |
| `Crc64.KnownAnswer` | src/rdb.cpp:41-65 | the checksum of the single byte 0x80 is 0x95ac9329ac4bc9b5, the polynomial in reflected order |
| `Rdb.LengthReads` | src/rdb.cpp:74-91 | each of the length encodings reads back as the length, for every 64-bit length |
| `Rdb.StringReads` | src/rdb.cpp:93-96 | a written string reads back |
| `Rdb.DeadlineReads` | src/rdb.cpp:266-269 | every 64-bit signed deadline survives its eight bytes |
| `Rdb.OpReads` | src/rdb.cpp:318-372 | each opcode and its operands read back |
| `Rdb.OpCut` | src/rdb.cpp:318-372 | an opcode cut anywhere inside is refused |
| `Rdb.OpsCut` | src/rdb.cpp:315-375 | a body cut anywhere is refused, or the next byte is not the end marker |
| `Rdb.RoundTrip` | src/rdb.cpp:243-375 | parsing a serialised snapshot returns exactly its records, for every record list that fits 64-bit counts and deadlines |
| `Rdb.AnnouncedSizes` | src/rdb.cpp:257-263 | the sizes written ahead of the records are how many there are and how many of them have a deadline |
| `RdbForms.AnyLengthReads` | src/rdb.cpp:136-167 | a length reads the same in whichever of the four encodings has room for it |
| `RdbForms.IntegerReads` | src/rdb.cpp:181-191 | a string kept as an integer of one, two or four bytes in two's complement reads as its decimal form, and the reader goes on just past it |
| `RdbForms.TextIsForm` | src/rdb.cpp:175-212 | whatever is read as a string is a length in some encoding and that many bytes, or such an integer |
| `RdbForms.FormReads` | src/rdb.cpp:318-375 | every field is read as what it tells: a deadline in milliseconds, or in seconds times a thousand, a key with its value, or nothing |
| `RdbForms.ItemIsForm` | src/rdb.cpp:318-375 | whatever is read as a field is one |
| `RdbForms.SnapshotParses` | src/rdb.cpp:280-375 | every payload made of a version no later than the own, such fields, the end mark and a checksum that is right or zero is accepted, and yields one record for each key, with the last deadline given since the key before it |
| `RdbForms.ParsedIsSnapshot` | src/rdb.cpp:280-375 | and nothing else is accepted |
| `RdbForms.SecondsThenKey` | src/rdb.cpp:344-346 | a deadline of s seconds gives the next record the deadline s times a thousand |
| `RdbForms.VersionOrder` | src/rdb.cpp:290-294 | of versions in four digits exactly those up to eleven pass |
| `Rdb.NoPrefixAccepted` | src/rdb.cpp:280-375 | no proper prefix of a serialised snapshot is accepted, whatever its last eight bytes happen to be, and one below 2^64 bytes is refused |
| `Rdb.CorruptionRejected` | src/rdb.cpp:306-313 | any change within eight consecutive bytes before the trailer of an accepted payload with a stored checksum is refused |
| `Rdb.BoundsCheckExactly` | src/rdb.cpp:205-208 | the bounds check on 64-bit sums lets through exactly the lengths that are there and those whose sum wraps |
| `Rdb.ClaimedLengthWraps` | src/rdb.cpp:205-208 | every string whose claimed length makes that sum wrap is where the model stops |
| `Rdb.SomePayloadWraps` | src/rdb.cpp:280-375 | a concrete payload that passes all checks made before the body and holds such a string |
| `RdbCodec.WriteLength` | src/rdb.cpp:74-91 | appends the length encoding |
| `RdbCodec.WriteRecord` | src/rdb.cpp:265-273 | appends one record, with its deadline when it has one |
| `RdbCodec.SerializeSnapshot` | src/rdb.cpp:243-278 | the writer, header, body and checksum, produces the specified bytes |
| `RdbCodec.Reader.U8` | src/rdb.cpp:108-111 | next byte, or failure at the end |
| `RdbCodec.Reader.Little` | src/rdb.cpp:118-132 | little-endian integer, or failure when bytes are missing |
| `RdbCodec.Reader.Big` | src/rdb.cpp:156-165 | big-endian integer, or failure when bytes are missing |
| `RdbCodec.Reader.ReadLen` | src/rdb.cpp:136-167 | length or special encoding |
| `RdbCodec.Reader.Str` | src/rdb.cpp:175-212 | string, integer string, the refusal of compressed and unknown encodings, or the mark that a claimed length wraps; which string it is is said by RdbForms.IntegerReads and RdbForms.TextIsForm |
| `RdbCodec.ReadTrailer` | src/rdb.cpp:299-305 | the stored checksum |
| `RdbCodec.ParseSnapshot` | src/rdb.cpp:280-375 | the reader agrees with the grammar on every byte string, accepted or refused, with the same reason, up to the first claimed length that wraps; which payloads those are is said by RdbForms.SnapshotParses and RdbForms.ParsedIsSnapshot |
| `RdbCodec.ParseBody` | src/rdb.cpp:315-375 | the opcode loop agrees with the grammar, pending deadline included, up to the first claimed length that wraps |
| `Persistence.Aof.Append` | src/aof.cpp:84-88 | buffers the encoded command when open |
| `Persistence.Aof.Flush` | src/aof.cpp:90-121 | moves the buffer to the file; file and buffer together are unchanged |
| `Persistence.Aof.Rewrite` | src/aof.cpp:123-161 | the file becomes one SET per record, and nothing buffered before can reach it |
| `Persistence.ApplySilently` | src/persistence.cpp:27-32 | one logged command run on the store being restored |
| `Persistence.ReplayFile` | src/aof.cpp:163-199 | replay runs the whole commands of any byte string in order and reports the bytes left over, or an error |
| `Persistence.RewriteKeepsView` | src/aof.cpp:123-161 | the rewritten log is canonical and writes exactly the view the records list |
| `Persistence.TellsOneMore` | src/persistence.cpp:53-56 | a command run and logged keeps the log telling the view of the store |
| `Persistence.LoggingServer.Execute` | src/persistence.cpp:53-56 | a client command, in whatever role, appends its canonical form to the log exactly when it changed something; file and buffer hold the log and the log tells the view |
| `Persistence.LoggingServer.Cron` | src/persistence.cpp:117-129 | expiry and flush keep that and leave nothing buffered; the log is rewritten exactly when more than the threshold has been counted, and has then one command for each live key |
| `Persistence.LoggingServer.RewriteAof` | src/persistence.cpp:109-115 | a rewrite at any moment: commands still buffered are in the new log through the view, and none is in it twice |
| `Persistence.LoggingServer.TimePasses` | src/persistence.cpp:53-56 | that the log tells the view survives the passing of time |
| `Persistence.OpenServer` | src/persistence.cpp:21-43 | a server opened on a whole log, empty or not, has run it again, and the log with each write at the time it was run again tells its view exactly |
| `Persistence.ServedCanonical` | src/aof.cpp:163-199 | running a canonical log is carrying out its writes |
| `Persistence.CutLog` | src/aof.cpp:163-199 | a canonical log cut at any byte |
| `Persistence.ReplayIsServing` | src/persistence.cpp:27-32 | running logged commands by the handler is the replay the timing theorems speak of |
| `Persistence.Restart` | src/persistence.cpp:21-51 | restart from any prefix of a log: the whole commands are applied, the cut bytes reported, nothing extra is shown, and the view is exact when no write comes too late |
| `Persistence.LoadSnapshot` | src/persistence.cpp:47-50 | loading records into a fresh store |
| `Persistence.BothWaysRestore` | src/persistence.cpp:21-51 | a snapshot written and parsed, and a log rewritten and replayed at any later times, both restore the view at every later time |
| `Receiving.OffsetReads` | src/replication.cpp:247-260 | the offset in the announcement reads back, whatever the replication id |
| `Receiving.SyncReader.Fill` | src/replication.cpp:62-69 | more bytes in the buffer, none lost |
| `Receiving.SyncReader.ReadLine` | src/replication.cpp:38-48 | the bytes before the first line end; the rest is still ahead; for every chunking |
| `Receiving.SyncReader.ReadExact` | src/replication.cpp:50-57 | exactly n bytes, line ends among them or not; the rest is still ahead |
| `Receiving.Greet` | src/replication.cpp:232-245 | succeeds if and only if three lines are there and start with +PONG, +OK and +OK, and leaves what is behind them |
| `Receiving.ReceiveResync` | src/replication.cpp:229-297 | however the bytes are cut into reads: a result exactly when every line of the handshake starts as expected, the payload is all there and parses, and then the offset announced and the records sent; of a well-formed exchange every later byte is still there |
| `Receiving.PassedOver` | src/replication.cpp:311-327 | by name: PING is passed over, REPLCONF with an argument is answered, and REPLCONF alone is a command like any other |
| `Receiving.CanonicalAllPosted` | src/replication.cpp:321-332 | no streamed write is taken for a keepalive or an acknowledgement request |
| `Receiving.TakingIsDraining` | src/replication.cpp:304-337 | taking commands one by one is draining the stream: only keepalives and acknowledgement requests are not posted, and no acknowledgement is ahead of the offset |
| `Receiving.TakeCommands` | src/replication.cpp:300-339 | the stream loop posts the whole commands in order, acknowledges where asked with the offset then reached, and the offset advances by exactly the bytes removed |
| `MasterLinks.ReplicationMaster.constructor` | src/replication.cpp:108-109 | no replicas, offset zero |
| `MasterLinks.ReplicationMaster.StartFullResync` | src/replication.cpp:117-139 | announcement with the current offset, size, payload, and from then on every propagated command, in that order; a link that asks again is listed again; nothing without a link |
| `MasterLinks.ReplicationMaster.SetReplicaPort` | src/replication.cpp:141-146 | records the port for a replica or for a connection not yet promoted |
| `MasterLinks.ReplicationMaster.OnReplicaAck` | src/replication.cpp:148-155 | sets the acknowledged offset of that replica only |
| `MasterLinks.RemovedKeeps` | src/replication.cpp:157-163 | filtering a link out keeps exactly the other replicas, with what is recorded of them, as often as they were listed |
| `MasterLinks.ReplicationMaster.OnDisconnect` | src/replication.cpp:157-163 | forgets that link only |
| `MasterLinks.ReplicationMaster.Propagate` | src/replication.cpp:165-175 | the offset grows by the encoded length, and each link is sent those bytes once for each time it is listed, and no one else |
| `MasterLinks.PropagateIsStep` | src/replication.cpp:165-175 | what propagate does to offset and outputs is the propagation step of the protocol |
| `MasterLinks.ResyncIsStep` | src/replication.cpp:117-139 | what a first resync does to the list and the output is the attach step of the protocol |
| `Replication.NextCommand` | src/replication.cpp:304-310 | what a replica parses next is the next command of the master log, and the rest of the stream follows |
| `Replication.NoStreamError` | src/replication.cpp:304-310 | no amount of the stream received so far is a protocol error |
| `Replication.CommandKeeps` | src/replication.cpp:165-175 | a master command keeps the invariant for the master and all its replicas |
| `Replication.AttachKeeps` | src/replication.cpp:117-139 | a full resync keeps it |
| `Replication.TakeLineKeeps` | src/replication.cpp:247-269 | taking the announcement or the size line keeps it, and the link stays up |
| `Replication.PayloadKeeps` | src/replication.cpp:270-297 | taking the payload keeps it and posts the load of exactly the records sent |
| `Replication.TakeCommandKeeps` | src/replication.cpp:304-337 | taking a streamed command keeps it and moves one position on |
| `Replication.LoadAllShows` | src/replication.cpp:284-290 | the load replaces the keyspace by the view the master had at the snapshot, as faded since |
| `Replication.ApplyOneShows` | src/replication.cpp:328-332 | applying a streamed command stays within the master at the next position, and equals it if and only if the command does not come too late |
| `Replication.RunTaskKeeps` | src/replication.cpp:284-332 | running the next posted task keeps the invariant |
| `Replication.StepKeeps` | src/replication.cpp:117-347 | every step of the protocol keeps it |
| `Replication.RunKeeps` | src/replication.cpp:117-347 | it holds in every state of every run |
| `Replication.ReplicaShowsTheMaster` | src/replication.cpp:117-347 | in every run, with no clock behind the master, a replica that has applied a resync shows at its own time and ever after no more than the master at the position applied |
| `Replication.BehindExactly` | src/replication.cpp:328-332 | a posted write run at a clock behind the time the master made it stays within what the master shows at that position if and only if nothing the replica then shows is dead at that time |
| `Replication.BehindShowsMore` | src/store.cpp:16-25 | a family of such writes after which the replica shows a key the master has let die |
| `Replication.ReceivePathExact` | src/replication.cpp:229-337 | in every run the replica never gives a link up over what it reads: each line is the one expected, the payload parses to the records sent, and the stream is never an error |
| `Replication.OffsetsConserved` | src/replication.cpp:165-175 | in every run, replica offset plus unparsed plus in-flight bytes is the master offset on an attached streaming link, and acknowledged is at most replica offset is at most master offset; which offset is acknowledged is said by the rows of Acknowledging |
| `Replication.ReplicaCatchesUp` | src/replication.cpp:300-347 | in every run, a replica with nothing in flight, buffered or queued stands at the master offset and at the end of its log, and shows from then on no more than the master |
| `ReplicaLoop.LoopIsSteps` | src/replication.cpp:300-339 | the stream loop run to its end is the steps of the protocol taken until no whole command is left: same rest, offset, tasks and acknowledgements |
| `ReplicaLoop.ResyncIsSteps` | src/replication.cpp:247-297 | reading announcement, size and payload is three steps of the protocol, and ends at the first byte of the stream with the load of the parsed records posted, or disconnected |
| `Agreement.StepAgreement` | src/replication.cpp:284-332 | from a state in which replica and master agree at the position applied, every step of anyone keeps it, except that running a posted write after the deadline it moves breaks it |
| `Agreement.AgreesExactly` | src/replication.cpp:117-347 | through any stretch of any run that starts in agreement they agree in every state if and only if no posted write is run too late |
| `Agreement.ReplicaAgreesExactly` | src/replication.cpp:284-332 | since the load of a resync was run, a replica has shown exactly what the master showed at its position if and only if none of its writes came too late |
| `Agreement.QuietAgreement` | src/replication.cpp:300-347 | an agreeing replica at rest shows exactly what the master shows, then and at every later time |
| `Agreement.EveryRunCanLose` | src/store.cpp:74-82 | every run can be continued, with any key, to a replica at rest at the end of the log that lacks a key the master shows |
| `CatchingUp.AdvancingFinishes` | src/replication.cpp:229-337 | every step by which received bytes become applied commands leaves strictly less to do and the link up |
| `CatchingUp.NeverStuck` | src/replication.cpp:229-337 | a link that is up and has anything on its way, unparsed or unrun can always take such a step |
| `CatchingUp.ComesToRest` | src/replication.cpp:206-371 | from every state that keeps the invariant, a link left alone comes to rest with nothing in flight, buffered or queued |
| `CatchingUp.CanCatchUp` | src/replication.cpp:206-371 | from every such state, whatever was lost or queued before, a server can by its own steps come to show exactly the view of the master, at its offset |
| `CatchingUp.EveryRunCanCatchUp` | src/replication.cpp:206-371 | every run can be continued so that a given server stands at the end of the log and shows exactly what the master shows, with the master and all other servers untouched |
| `Acknowledging.AcksAreFaithful` | src/replication.cpp:316-346 | in every state of every run, the acknowledgements on their way are those sent on this connection and not yet arrived, in order; the master knows the last that arrived; and none is below an earlier one or above the replica offset |
| `Acknowledging.WhatIsSaid` | src/replication.cpp:316-346 | an acknowledgement carries the replica offset of the moment, with the bytes of the request that asked for it counted |
| `Acknowledging.ArrivedWasSent` | src/replication.cpp:148-155 | in every run, the offset recorded when an acknowledgement arrives is the one the replica had in the state in which it sent it, on the same connection, and no lower than what was recorded before |
| `Acknowledging.HeardAll` | src/replication.cpp:341-346 | in every run, once all that was sent has arrived the master knows at least the offset of every sending step of the connection, and no more than its own |
| `Acknowledging.RestIsAcknowledged` | src/replication.cpp:341-346 | a replica at rest that sends one more: when all have arrived and nothing was written since, the acknowledged offset is the master offset |
| `Acknowledging.EveryRunCanBeAcknowledged` | src/replication.cpp:206-371 | every run can be continued, without another write, to a state in which a given replica shows exactly what the master shows and the master knows it |

## Left out

- RdbCodec.Reader.Str: what the source does after `pos_ + len` has wrapped around 64 bits is not modelled; the reader stops there with `LengthWraps`.
- RdbCodec.ParseSnapshot: says nothing of the source for a payload in which a claimed length wraps (`Wrapped`).
- RdbCodec.ParseBody: likewise.
- Rdb.RoundTrip: record counts and sizes below 2^64 are assumed, as the 64-bit types of the source imply.
- Commands.CommandCompiles: commands whose deadline sum or product leaves 64 bits are undefined in the source and excluded by `InRange`.
- SetLaws.SetCombines: times whose product or sum leaves 64 bits are undefined in the source and excluded by `AllDefined`.
- CommandTables.CommandTable.CmdSet: KEEPTTL reads the clock twice in the source; the model reads it once per command.
- CommandTables.CommandTable.Dispatch: replies are a datatype, not their text; INFO, CONFIG, COMMAND, SELECT, QUIT, SAVE, PSYNC and REPLCONF reply `Elsewhere`; replication is enabled and attached to a server, without which REPLICAOF only replies an error.
- Storage.Store.ActiveExpireCycle: statistics are not modelled, the threshold is a natural percentage, and no claim is made that every key is eventually sampled, because the sampler skips the rest of a bucket it read only partly.
- Storage.Store.CycleUntilClean: the layout of each cycle is chosen afresh, as a hash map may rearrange between cycles.
- Persistence.Aof.Flush: fsync policies, file-system calls and their failures are not modelled; the file is a byte sequence.
- Persistence.LoggingServer.Cron: joining a finished background save and starting a timed one are left out; they do not touch store or log.
- Persistence.Restart: covers one crash of a log that was clean when opened; the source leaves a torn tail in the file and appends after it.
- Receiving.ReceiveResync: the number parser of the C library is modelled on plain decimal digits, as the master writes them; signs, leading blanks and saturation are not.
- MasterLinks.ReplicationMaster.StartFullResync: sending does not overflow the output cap; otherwise the list of replicas would change while it is walked.
- MasterLinks.ResyncIsStep: a link that asks for a second resync is listed twice and is then sent every command twice; the protocol of `Replication` has each connection ask once.
- Replication.ReplicaShowsTheMaster: no server changes its role within a run, and tasks left over from a link ended by REPLICAOF NO ONE are not modelled.
- Persistence.LoggingServer.Execute: what a replica applies from the stream of its master is not logged by the source and is not part of this server.
- CatchingUp.EveryRunCanCatchUp: says that catching up is always possible, not that a scheduler brings it about; fairness of the event loop and of the network is not modelled.
- The poll server, accept loops, timers, sockets and threads: operating-system plumbing; posted tasks run in the order posted.
- Background saving and its counters, the placeholder ping handler, random replication ids, benchmarks and configuration: text or plumbing with no property beyond it.
