# LiuHe: a verification model of its protocols

LiuHe is a tool server that edits source files. This project models the parts of it where something can go
wrong between two steps: a process dies in the middle of a write, other writers and the file watcher step in, a
byte stream is cut anywhere, a request is retried. Everything is stated for all inputs and all runs, and proved
with Dafny 4.11 (`dafny verify dfyconfig.toml`).

How things are represented:

- The file system is a map from paths to contents, plus journal directories, one batch marker and locks. SHA-256
  is taken to be injective (`Common.Digest`).
- A crash is a process that runs out of `fuel`: every durable step of `WriteRuntime.Workspace` spends one unit and
  does nothing once there is none, so what a method ensures holds at every point at which the process may die.
- Concurrent processes (file locks, claims, code index) are state machines over the steps between which the
  program can be interrupted; a run is a sequence of states linked by steps.
- JSON, localeCompare, module resolution and language families are parameters with the laws that the proofs need.
- Every lemma carries `{:induction false}`: no proof rests on automatic induction.

What the files hold:

| file | content |
|---|---|
| Journal, Batch, WriteRuntime | journaled single writes and strict batches, crash recovery, rollback, undo |
| FileLock | conflict check and writers interleaving under the file lock |
| Lines, Splice, BatchEdits | several symbol edits on one file as one simultaneous splice |
| Protocol, Server | frames, decode loop, request queue of the parse daemon |
| CodeIndex, Indexer | tables of the code index, sliced reference binding between re-indexing |
| Cycles, SymbolTree, StableIds | import cycles, innermost parents, stable ids |
| TaskStore, Claims, Retention | event-sourced tasks, request claims, retention of request records |
| Brackets, Stripper, LiteralContents | bracket check on edited code |
| CheckAttempts, EffectiveState | when a newer check settles a stopped one, and what `done` means |
| Caches, Slots | the daemon's two caches, the weighted semaphore and the slot of each tool call |

## Findings

Where the code does not do what one would expect, the model follows the code; the lemma named shows it.

- A batch that creates an empty file is crash-atomic exactly if all its other edits change nothing: after a crash right
  behind the rename of that file, recovery takes it for untouched and the batch stays half applied
  (`WriteRuntime.Workspace.CrashAfterEmptyCreate`; in all other batches the claim holds, `CrashThenRecover`).
- `undone` is not among the settled phases, so recovery after the writer's death relabels an undone transaction
  (`Journal.RecoveryForgetsUndone`).
- Undo overwrites a foreign edit exactly if the committed transaction has no recorded hash, as the guard then stands
  open (`Journal.UndoOverwritesIff`). Since a failed state write goes unnoticed, such a transaction can exist
  (`WriteRuntime.Workspace.LostHashThenUndo`).
- Of the creators of one file all but the first overwrite, the existence check being made before the lock: a creation
  overwrites exactly if somebody wrote since it looked (`FileLock.CreateOverwritesIff`,
  `FileLock.CreateOverwritesWhatCameBetween`, a run: `FileLock.CreatorsOverwrite`). A lock taken from a live holder
  loses an update (`FileLock.LiveStealLosesUpdate`).
- Looking at the age of a takeover lock and unlinking it are two steps; two processes can both end up holding a
  claim (`Claims.StaleLockRace`).
- The uniqueness test of a patch does not notice an occurrence that overlaps the first: a count of one means a single
  occurrence in every text exactly if no proper prefix of the old string is also its suffix
  (`BatchEdits.OneMeansSingle`; `aa` in `aaa` is the smallest case of `BatchEdits.OverlapMissed`).
- A string literal can change the bracket verdict exactly if a slash before it is still waiting to be the start of a
  regex, the text is no shell script, and the brackets before the slash have not been refused already
  (`LiteralContents.WhenVerdictDepends`, an instance: `LiteralContents.VerdictFlips`).
- Two or more symbols without a stable id do get one, made from the text `null`, although the comment in
  malong/symbol-anchors.js says that none is returned; only a single one stays without (`StableIds.IdMissingIff`).
- `LruCache::put` at capacity never takes the bytes of the dropped entry off the counter: what is booked too much grows
  by exactly these bytes, when a new key comes to a cache still full after making room, and at no other time
  (`Caches.TreeCache.Insert`, a run: `Caches.LeakGrows`). Once it leaves no room beside it, every insert empties the
  cache.
- A wait timeout lets a call wait that fits exactly if the call that gives up is the head of the queue and the next one
  fits (`Slots.Dispatcher.WaitTimeout`, for all weights for which it can happen: `Slots.TimeoutDoesNotWake`).
- A record once compacted by retention stays marked in every run (`Retention.MarkedStays`), also when a later result is
  merged into it; it is never counted or evicted again. So more than 500 records with content can survive a prune
  (`Retention.MoreThanTheLimit`): the limit holds exactly if no more compacted ids were recorded again than the others
  leave room for (`Retention.ContentBound`). A request that goes on without a claim
  (malong/tools/tool-invoke-capability/handler.js:249-251) can be compacted before its result is recorded.
- A check that is settled can be reopened when one half of an attempt is recorded later than the other: an operation for
  a job already known, or a job for operations already recorded, replaces what the other half said alone
  (`CheckAttempts.OpReopens`, `CheckAttempts.JobReopens`; exactly when: `OpForKnownJob`, `JobForKnownOps`). A whole new
  attempt reopens nothing (`CheckAttempts.NewAttemptKeepsSettled`).

## Model

| member | source | states |
|---|---|---|
| Journal.CrashedWriteIsClassified | malong/write-journal.js:244-281 | what recovery makes of a write that died between journal and commit: Committed exactly if the new content landed and differs, otherwise Abandoned; the only mislabelled case is the creation of an empty file |
| Journal.SettleIsIdempotent | malong/write-journal.js:184-291 | a second recovery pass over any journal directories changes nothing |
| Journal.SettleMeaning | malong/write-journal.js:184-291 | what becomes of one journal directory, in terms of what is on disk: in use by a living writer or settled, it stays as it is; of a dead writer without a state file it goes exactly unless the file is there and differs from the backup; every other one gets its label, and foreign content is left to a human |
| Journal.RecoveryForgetsUndone | malong/write-journal.js:228-285 | an undone transaction is relabelled once its writer is dead |
| Journal.UndoActsOnOwnContentOnly | malong/write-journal.js:614-689 | undo takes back exactly a committed transaction whose file holds what it wrote (or that has no recorded hash) and is not the backup; foreign content is refused, and so is whatever is not committed |
| Journal.UndoOverwritesIff | malong/write-journal.js:630-645 | undo overwrites content that is not its own exactly if a committed transaction with backup and file has no recorded hash |
| Journal.VerdictMeaning | malong/write-journal.js:614-650 | when the check before an undo gives each of its answers |
| Journal.UndoInvertsEdit | malong/write-journal.js:696-786 | undoing a committed edit that still stands gives the files before it, or finds them already so |
| Journal.UndoLoopStep | malong/write-journal.js:651-689 | one step of a batch undo takes back at most the file of its own member and leaves all other members as they were |
| Journal.RollBackLoopStep | malong/write-journal.js:491-541 | one step of batch recovery reverts only a file that still holds what its transaction wrote |
| Journal.TakeBackStep | malong/write-runtime.js:1125-1189 | taking back one more transaction keeps all differences explained by transactions that found their own content |
| Batch.SettlingKeepsRecoverable | malong/write-journal.js:184-291 | a recovery pass over the journals, dying anywhere, keeps a strict batch recoverable |
| Batch.MemberStep | malong/write-runtime.js:1080-1105 | moving one member's file between its two contents, or its journal to a truthful phase, keeps the batch recoverable |
| Batch.RecoveryStep | malong/write-journal.js:491-541 | rolling back one committed member of a batch that cannot complete restores its old content, touches no other member, and keeps the batch recoverable and not completable |
| Batch.Verdict | malong/write-journal.js:461-490 | once nothing is staged, the number of committed members decides: none means all old, all means all new, fewer means the batch cannot complete |
| Batch.EnlistKeepsRecoverable | malong/write-runtime.js:1080-1083 | listing a freshly journalled member in the marker keeps the batch recoverable |
| Batch.CommittedIdsMeaning | malong/write-journal.js:476-490 | the committed members counted by recovery are exactly the committed ones of the marker, each once |
| Batch.EmptyCreateSettles | malong/write-journal.js:244-270 | after a crash behind the rename of an empty created file, recovery counts exactly the members before it as committed |
| Batch.EmptyCreateStays | malong/write-journal.js:491-541 | the roll-back that follows leaves the batch neither all old nor all new |
| Batch.LoneCreation | malong/write-runtime.js:866-1119 | where an empty file is created and all other edits change nothing, the files are always all old or all new |
| Batch.BatchUndoReady | malong/write-journal.js:595-650 | after a completed batch its members are exactly the transactions with its id, they wrote different files, and none blocks an undo |
| Batch.BatchRestored | malong/write-journal.js:651-689 | when every member is taken back or found restored, the files are those before the batch |
| WriteRuntime.Workspace.CreateJournal | malong/write-journal.js:21-42 | a new directory with owner, backup, manifest and state, of which any prefix may be all that reaches the disk |
| WriteRuntime.Workspace.UpdateState | malong/write-journal.js:56-62 | only the phase, and a given hash, of an existing state file change |
| WriteRuntime.Workspace.WriteMember | malong/write-runtime.js:1078-1112 | one file of a batch, at every crash point: recoverable; if it lived, written and committed, or failed with its file untouched |
| WriteRuntime.Workspace.CompensateFile | malong/write-runtime.js:1125-1189 | a written file is taken back exactly if it still holds what was written and its backup is there |
| WriteRuntime.Workspace.WriteSymbols | malong/write-runtime.js:866-1248 | a strict batch ends all new and recorded, or all old, and all old whenever an error is thrown at one of its files; it is recoverable wherever it dies, and refused while a live process holds the batch lock |
| WriteRuntime.Workspace.RecoverJournals | malong/write-journal.js:184-291 | a full pass leaves alone what a living writer still uses and what has an outcome, removes exactly the leftovers of dead writers, gives every other directory the label the disk suggests, and touches no target file; of a pass that dies each directory is as before or as judged |
| WriteRuntime.Workspace.RollBackMember | malong/write-journal.js:491-541 | a committed member is reverted if its file still holds what it wrote, else marked for review |
| WriteRuntime.Workspace.RollBackAll | malong/write-journal.js:491-541 | only files that still held their transaction's content change, and they become exactly their backup; a half-done batch ends all old |
| WriteRuntime.Workspace.FinishDeadBatch | malong/write-journal.js:461-544 | a dead batch ends all old or all new, and its marker is gone |
| WriteRuntime.Workspace.RecoverBatches | malong/write-journal.js:461-544 | nothing happens while the batch lock is held by a live process; otherwise a dead batch is finished |
| WriteRuntime.Workspace.Recover | malong/write-journal.js:184-296 | a recovery that lives long enough leaves no marker and the batch all old or all new; one that dies leaves it recoverable |
| WriteRuntime.Workspace.CrashThenRecover | malong/write-runtime.js:866-1189 | crash atomicity of every strict batch but those that create an empty file beside an edit that changes something: any crash in write or rollback, any number of recoveries that die too, then one that lives: every file new or every file old |
| WriteRuntime.Workspace.CrashAfterEmptyCreate | malong/write-journal.js:254-262 | for every other batch there is a crash after which recovery leaves it half applied |
| WriteRuntime.Workspace.RestoreBatch | malong/write-journal.js:614-689 | a batch undo is blocked exactly if some member, crash leftovers included, cannot be undone, and then changes nothing; else every member is taken back or found restored, files whose lock is busy stay as they are, and the two counts say how many; with all hashes recorded foreign content stays |
| WriteRuntime.Workspace.RestoreJournal | malong/write-journal.js:696-786 | an undo by id, of any transaction, takes back exactly that one or its whole batch, refuses foreign edits if the hash was recorded, says that a file is locked exactly if a committed transaction with a backup meets a busy lock, and otherwise changes nothing |
| WriteRuntime.Workspace.LostHashThenUndo | malong/write-journal.js:56-62 | the hash of a write is not recorded, the write is committed, somebody edits the file: undo puts the backup back over the edit |
| WriteRuntime.Workspace.WriteSymbol | malong/write-runtime.js:597-655 | a single write, at every crash point: the file is old or new, and the journal tells which or that the writer died |
| WriteRuntime.Workspace.CrashedWriteThenRecover | malong/write-journal.js:184-291 | after a crash anywhere in a single write, recovery leaves the file alone, says committed only of the new content and abandoned only of the old, and a second recovery changes nothing |
| WriteRuntime.Workspace.WriteThenUndo | malong/write-journal.js:696-786 | write then undo is the identity on the files, for every single write |
| WriteRuntime.Workspace.WriteBatchThenUndo | malong/write-journal.js:614-689 | write a batch, undo through any member: the files are as before |
| FileLock.AllowedMeaning | malong/write-runtime.js:155-190 | when a write passes the conflict check: file level, exactly if the file is byte for byte the base; symbol level, exactly if the symbol lives with the body the base names, or the base names none and the file is unchanged |
| FileLock.ConflictMeaning | malong/write-runtime.js:155-190 | when the conflict check gives each of its answers, at file and at symbol level |
| FileLock.CheckMeaning | malong/write-runtime.js:339-442 | the check under the lock lets an edit go on exactly if the file is there and what its base names still stands: the file, or the symbol with its body, or the file where the base names no body |
| FileLock.StepKeepsInv | malong/write-runtime.js:77-134 | no step of any writer, dead or alive, breaks lock ownership, the checked content, or the chain of writes, if no live holder is judged stale |
| FileLock.NoLostUpdate | malong/write-runtime.js:339-469 | over every interleaving, successful writes form a chain, each edit replaces exactly what it was computed from; with a file-level base that is what the base names, and with a symbol-level base the symbol is there with the body the base names, or else the whole file is what the base names |
| FileLock.AloneSucceeds | malong/write-runtime.js:77-134 | nothing is refused without need: after any run, a writer that then runs alone and whose base still stands takes the lock, dead holders notwithstanding, writes what it wants and releases the lock |
| FileLock.SameBaseTwice | malong/write-runtime.js:339-469 | two changing writes from one base both succeed only if someone in between put the base content back |
| FileLock.AtMostOneFromOneBase | malong/write-runtime.js:339-469 | of any number of changing writers that share one base at most one succeeds |
| FileLock.LiveStealLosesUpdate | malong/write-runtime.js:123-128 | the hypothesis is needed: a run in which a live holder's lock is unlinked and an update is lost |
| FileLock.HolderIsAlone | malong/write-runtime.js:77-134 | while a living process is between lock and release, nobody else writes |
| FileLock.LockExcludes | malong/write-runtime.js:77-134 | whose turn a step is, who may take a lock and who may let it go; out of turn nothing happens |
| FileLock.DeadHolderIsReplaced | malong/write-runtime.js:122-128 | the holder of the lock dies, and the next writer gets it |
| FileLock.CreateOverwritesIff | malong/write-runtime.js:285-340 | in every run without stealing from the living, a creation finds no file exactly if it is the first write of all; every other one replaces what the write before it left |
| FileLock.CreateOverwritesWhatCameBetween | malong/write-runtime.js:285-340 | seen from the writer: it overwrites exactly if somebody wrote between its existence check and its lock |
| FileLock.CreatorsOverwrite | malong/write-runtime.js:287-340 | a run in which two concurrent creators both succeed, the second over the first |
| Lines.JoinSplit | malong/write-edit.js:41-47 | splitting a text into lines and joining them gives the text |
| Lines.SplitIsFine | malong/write-edit.js:41-47 | no line holds a line feed |
| Lines.SplitJoin | malong/write-edit.js:41-47 | lines without line feeds that are joined and split again are the same lines |
| Lines.TrimMeaning | malong/write-runtime.js:986 | trim takes away exactly the white space in front and behind |
| BatchEdits.CountOccurrences | malong/write-edit.js:4-15 | the loop counts the finds that do not overlap, none for an empty needle |
| BatchEdits.FoundOnce | malong/write-edit.js:4-15 | a count of zero means no occurrence; a count of one means a first occurrence and none behind its end |
| BatchEdits.OneMeansSingle | malong/write-edit.js:4-15 | a count of one means a single occurrence in every text exactly if no proper prefix of the needle is also its suffix |
| BatchEdits.OverlapMissed | malong/write-edit.js:4-15 | for every needle that has such a prefix, a text that holds it twice with a count of one |
| BatchEdits.EditMeaning | malong/write-runtime.js:1275-1335 | what each edit makes of a symbol's text: replaced whole, replaced but for the signature line, followed by new text, or patched at the only place of the old string |
| BatchEdits.RefusalMeaning | malong/write-runtime.js:1282-1318 | for every kind of edit, exactly when it is made, found already applied, or refused with each of its errors: a full replacement is found applied exactly if the trimmed texts are equal, and an old string is ambiguous exactly if it stands at two places that do not overlap |
| BatchEdits.EffectServes | malong/write-runtime.js:1275-1335 | whatever is not refused is served: after the edit, or where it was found applied, the symbol holds what the edit asks for |
| BatchEdits.ItemIsLocal | malong/write-runtime.js:1275-1335 | an item looks at nothing but its symbol's lines and changes nothing else |
| BatchEdits.OffsetFor | malong/write-runtime.js:962-971 | the correction is the sum of the deltas of the edits that ended before the symbol |
| BatchEdits.CorrectsOneMore | malong/write-runtime.js:1042-1047 | after one more edit the list of deltas still says by how much every zone has moved |
| BatchEdits.ItemOnSplice | malong/write-runtime.js:1036-1047 | an item at its corrected place finds its original symbol there and makes one more replacement of the simultaneous splice |
| BatchEdits.ApplyNext | malong/write-runtime.js:937-1048 | one turn of the group loop keeps the lines equal to the splice of all edits made so far, or refuses the item for a reason of its own or a repeated target |
| BatchEdits.ApplyGroup | malong/write-runtime.js:928-1050 | batch edits equal the simultaneous splice of what each item makes of the original symbol; with distinct targets the batch succeeds exactly if no item fails on its own, is refused for the first that does, and on success every symbol holds what its item asks for |
| BatchEdits.OrderDoesNotMatter | malong/write-runtime.js:928-1050 | with distinct targets every order of the same items gives the same replacements, lines and success |
| Splice.SpliceOneMore | malong/write-edit.js:41-47 | replacing a zone where it now stands is splicing with one more replacement |
| Splice.SplicedGap | malong/write-edit.js:41-74 | every line between two zones is kept, moved by the growth of the zones above |
| Splice.SplicedPiece | malong/write-edit.js:41-74 | every zone holds exactly its replacement, or its original lines |
| Splice.SplicedEnd | malong/write-edit.js:41-74 | there is nothing else |
| Splice.MakeSimpleDiff | malong/write-edit.js:17-39 | the hunk turns the old lines into the new ones and neither begins nor ends with a common line |
| Protocol.FromU32 | malong-parse/src/protocol.rs:67-74 | four bytes that read back as the number |
| Protocol.DecodeFrame | malong-parse/src/protocol.rs:89-142 | whatever a decode step takes off the buffer is at least four bytes and no more than there are |
| Protocol.DecisionIsFinal | malong-parse/src/protocol.rs:89-142 | a decision once made does not depend on bytes that arrive later |
| Protocol.HeaderDecides | malong-parse/src/protocol.rs:109-136 | a payload with a readable header: as many bytes behind it as it announces are the source, and none if it announces none or more than there are |
| Protocol.NoHeader | malong-parse/src/protocol.rs:109-142 | a payload without one is plain JSON, or skipped whole |
| Protocol.EmptyFrameSkipped | malong-parse/src/protocol.rs:104-107 | an empty frame is taken off the buffer |
| Protocol.ObjectIsNoV2 | malong-parse/src/protocol.rs:109-142 | a payload that starts with a brace is never read as header length and header |
| Protocol.LegacyRoundTrip | malong/parse-client.js:629-637 | a request sent as plain JSON decodes to itself if it fits the limit, and is skipped otherwise |
| Protocol.V2RoundTrip | malong/parse-client.js:616-628 | a request sent with source decodes to the same header, without the length it announced, and to the same source, exactly if the frame is within the limit |
| Server.ReadInPieces | malong-parse/src/server.rs:169-210 | reading a stream in two pieces decodes what reading it at once does |
| Server.SessionRoundTrip | malong/parse-client.js:616-637 | from the concatenation of a client's frames a greeted daemon decodes exactly the messages sent, and nothing is left over |
| Server.GreetingComesFirst | malong-parse/src/server.rs:174-197 | a daemon with a token reads nothing of a client but a greeting with that token first, and then all the rest; anything else closes the connection |
| Server.OneOrder | malong-parse/src/server.rs:107-121 | there is only one order in which a queue can be served |
| Server.Pop | malong-parse/src/server.rs:213 | the request taken precedes all others by priority, then arrival, and nothing is lost |
| Server.Connection.DecodeAvailable | malong-parse/src/server.rs:169-210 | the loop ends with what was decoded equal to what the whole stream means, numbered in arrival order |
| Server.Connection.ServeAll | malong-parse/src/server.rs:212-230 | the batch is answered completely, the higher priority first and of one priority the earlier arrival |
| Server.Connection.OnRead | malong-parse/src/server.rs:140-232 | after every read the requests decoded are those of the whole stream so far, and the new ones are answered in order |
| Server.ReadAll | malong-parse/src/server.rs:140-232 | however a stream is cut into reads, the same requests are decoded, and it is closed in the same cases |
| CodeIndex.StaleChoiceKeeps | malong/code-index.js:930-972 | a binding chosen on an old snapshot and carried out by the guarded update keeps the index sound |
| CodeIndex.ImportedIsMeant | malong/code-index.js:893-919 | what the import map gives a name is the name itself or what an alias of that file says |
| CodeIndex.ImportOfMeaning | malong/code-index.js:893-919 | what a snapshot says of a local name: what the first import row of the file says that says anything; the row that opens a group speaks by its aliases, every other by its own name in the module of its group |
| CodeIndex.BindKeeps | malong/code-index.js:863-873 | binding references to living symbols that are meant keeps the index sound |
| CodeIndex.ClearKeeps | malong/code-index.js:757-764 | dropping a file's rows leaves nothing of it and nothing that points to it, and keeps the index sound |
| CodeIndex.StepKeeps | malong/code-index.js:53-73 | every step (removal, re-index, alias update, guarded binding from a snapshot) keeps foreign keys, soundness, and what earlier snapshots may rely on |
| CodeIndex.EveryRunIsSound | malong/code-index.js:879-1010 | in every interleaving of indexing, removal, alias resolution and any number of sliced resolutions, every bound reference points to a living symbol whose name is the one referred to or the one an import alias of its file gives |
| Indexer.BuildImportMap | malong/code-index.js:893-919 | the loop gives for every file and name what the first import row that says something of it says, groups opened by their module row |
| Indexer.Index.RemoveFile | malong/code-index.js:631-654 | a known file is removed with its symbols and references, all else stays but for bindings to them, which are undone; an unknown path changes nothing |
| Indexer.Index.IndexFile | malong/code-index.js:753-877 | the file's symbols and references are exactly the new ones under new ids, each call, use or assignment bound to the last symbol of its name, if there is one; all else stays but for bindings to the old ones |
| Indexer.Index.MapSymbols | malong/code-index.js:789 | of several symbols of one name the last is found |
| Indexer.Index.BindOne | malong/code-index.js:933-968 | the choice is an imported or related symbol if the snapshot knows one; it is carried out exactly if the reference is still there and unbound and the symbol and its file are still there; nothing else changes |
| Indexer.Index.ResolveCrossFileRefs | malong/code-index.js:879-977 | whatever happens between slices the index stays sound, and no slice touches what was bound before it; left alone, exactly the open references with a choice are bound |
| Indexer.Index.ResolveAliasedRefs | malong/code-index.js:980-1010 | exactly the call references for which some alias of their file leads to a symbol are bound, or bound anew, to such a symbol; every other reference is as it was |
| Cycles.RankedMeets | malong/code-index.js:1996-2030 | a closed walk in a graph whose nodes are ranked along all edges but those on reported cycles has an edge on one of these |
| Cycles.TrailClosed | malong/code-index.js:2011-2013 | the trail from an earlier node back to it is a closed path of real edges with no repeated inner node |
| Cycles.CycleFinder.Dfs | malong/code-index.js:2004-2025 | the search keeps trail and stack, reports only cycles, and ranks what it finishes along all edges that lie on no reported cycle; it ends on every graph |
| Cycles.FindModuleCycles | malong/code-index.js:1996-2030 | what is reported are cycles of the given edges, no two with the same nodes; there is one exactly if the graph has a directed cycle, and every closed walk has an edge both of whose ends lie on one reported cycle |
| SymbolTree.TopIsInnermost | malong/symbol-anchors.js:25-33 | for nested ranges the top of the stack is the innermost that encloses the symbol |
| SymbolTree.BuildParentMap | malong/symbol-anchors.js:21-36 | for all inputs parents start before their children; for nested ranges the parent is the innermost enclosing symbol, and none exactly if nothing encloses it |
| SymbolTree.NoCycle | malong/symbol-anchors.js:21-36 | following parents never leads back |
| SymbolTree.QualifiedChain | malong/symbol-anchors.js:38-50 | the names of all ancestors in order; the guard against circles never cuts a chain short |
| StableIds.SpelledInjective | malong/symbol-anchors.js:67-93 | ids that read the same were made from the same id, signature and number |
| StableIds.IdsDiffer | malong/symbol-anchors.js:67-93 | after disambiguation no two ids of a file are the same, nor do two symbols stay without |
| StableIds.IdMissingIff | malong/symbol-anchors.js:67-93 | a symbol is left without an id exactly if it is the only one of the file that had none; of several each gets one that begins with the word null |
| StableIds.MadeIsBase | malong/symbol-anchors.js:61-65 | what is made of language, path, name and kind ends in a hash sign and the kind |
| StableIds.SameIdMeaning | malong/symbol-anchors.js:61-65 | an id is made unless a part is missing; in one file two symbols get the same one exactly if they are of one kind and their names differ at most in signs that an id cannot hold |
| StableIds.ResolveAmbiguities | malong/symbol-anchors.js:67-93 | the loops keep a unique id, and put signature, or signature and a count in file order, behind a shared one |
| TaskStore.TornAppend | malong/tools/entry-store.js:42-75 | however much of an append reaches the disk, the events before it are read as before, and the new one exactly if its text is complete |
| TaskStore.UpsertMeaning | malong/tools/entry-store.js:120-126 | an upsert changes the first operation with the id and keeps all others in place, or appends |
| TaskStore.ReplayedMeaning | malong/tools/entry-store.js:94-97 | what one operation event does to a record: the first entry with its id, or a new one at the end, is the operation, node and result kind are those given if any, the rest stays |
| TaskStore.ReplayTells | malong/tools/entry-store.js:77-118 | over whole logs: under every id the record holds the operation last written under it, and as node and result kind those last given |
| TaskStore.RevisionCounts | malong/tools/entry-store.js:196-210 | the revision of a replayed record counts its updates one by one |
| TaskStore.Store.LatestEventRevision | malong/tools/entry-store.js:140-147 | the highest revision among the events |
| TaskStore.Store.GetTask | malong/tools/entry-store.js:149-164 | after any run with crashes and torn appends the record returned is the replay of all fully written events, holds what was last written under every id, and is the snapshot from then on |
| TaskStore.Store.UpdateTaskCas | malong/tools/entry-store.js:196-210 | a missing record is not found, another revision than the expected one is a conflict, and neither changes anything; success, exactly if the whole event reaches the disk and the process lives on, adds one event, puts the operation in its place in the record returned and nothing else, with the next revision; a crash adds the event or not |
| TaskStore.Store.PutTask | malong/tools/entry-store.js:166-172 | a creation is done exactly if its event reaches the disk and the process lives on, and is then the only event and the snapshot; one that dies leaves either no event or that one |
| Claims.StepKeepsInv | malong/tools/outlet-ledger.js:55-127 | no step of any process breaks: a live claimant owns the claim file, a live holder of the takeover lock owns it, and a claim about to be unlinked belongs to the dead |
| Claims.AtMostOneHolder | malong/tools/outlet-ledger.js:96-127 | in every run in time at most one living process has the claim |
| Claims.FreeClaimIsObtained | malong/tools/outlet-ledger.js:96-106 | a free claim is obtained by a process that runs alone |
| Claims.DeadClaimIsObtained | malong/tools/outlet-ledger.js:66-126 | so is the claim of a dead owner if no takeover is under way, and the takeover lock is gone again |
| Claims.CrashedHolderIsReplaced | malong/tools/outlet-ledger.js:66-126 | a holder dies, and the next process that runs alone gets its claim |
| Claims.UnwrittenClaimIsJudgedByAge | malong/tools/outlet-ledger.js:53-61 | a claim without a pid is taken over exactly if it is too old |
| Claims.LiveClaimIsLeft | malong/tools/outlet-ledger.js:107-113 | the claim of a living owner is left alone |
| Claims.FreshLockKeepsOut | malong/tools/outlet-ledger.js:71-77 | a takeover lock that is not old keeps everybody else from taking over |
| Claims.RevivedClaimIsLeft | malong/tools/outlet-ledger.js:81-92 | if the holder turns out to live behind the takeover lock, the claim stays and the lock goes |
| Claims.SecondTurnIsLast | malong/tools/outlet-ledger.js:100-126 | after the second takeover a process gives up |
| Claims.StaleLockRace | malong/tools/outlet-ledger.js:66-79 | when a takeover lock left by a crash is unlinked on an old look at its age, two living processes can hold the claim |
| Retention.UnsafeIsRemembered | malong/tools/outlet-ledger.js:183-204 | a prune keeps state and payload hash of every record that is not a safe end |
| Retention.MergeMeaning | malong/tools/outlet-ledger.js:230-246 | an update replaces exactly what it gives; the first creation time and the mark of a compaction stay |
| Retention.SafeMeaning | malong/tools/outlet-ledger.js:155-166 | a record may be evicted exactly if it is known how its request ended |
| Retention.PlaceholderMeaning | malong/tools/outlet-ledger.js:183-204 | a compacted record says how the request stood, for which payload and since when, and is marked |
| Retention.DecideKeeps | malong/tools/outlet-ledger.js:216-226 | one turn of the prune keeps live records whole, counts what it keeps, and takes the oldest first |
| Retention.PruneMeaning | malong/tools/outlet-ledger.js:207-227 | a prune only removes safe or unreadable records and compacts unsafe ones, never touches live or compacted ones, leaves at most 500 unmarked records without a live claim, and those are the newest |
| Retention.PruneAll | malong/tools/outlet-ledger.js:207-227 | the loop takes the files from the newest to the oldest and decides on each as the pass over that order does |
| Retention.MarkedStays | malong/tools/outlet-ledger.js:171-246 | over any run of records and prunes a compacted id stays present and marked |
| Retention.RefilledMeaning | malong/tools/outlet-ledger.js:230-246 | over any run a marked record has content exactly if it was recorded with content again after it had been compacted |
| Retention.ContentBound | malong/tools/outlet-ledger.js:207-227 | the records with content that survive a prune number at most 500 that were never compacted plus all that were recorded again; the limit of 500 holds exactly if these fit beside the others |
| Retention.MoreThanTheLimit | malong/tools/outlet-ledger.js:207-246 | a run after which 501 records with content survive a prune and no claim is live |
| Retention.Ledger.Put | malong/tools/outlet-ledger.js:230-246 | the record is merged with what was known, then pruned; nothing that may have been executed is forgotten |
| Retention.Ledger.Lookup | malong/tools/outlet-ledger.js:137-144 | a request that may have been executed looks up with the state and payload hash last recorded |
| Brackets.MachineAccepts | malong/write-edit.js:160-170 | the stack ends empty exactly on the well nested bracket sequences |
| Brackets.BracketsOfMeaning | malong/write-edit.js:160-170 | what the check looks at are exactly the six bracket signs of a text, in their order |
| Stripper.QuoteEndMeaning | malong/write-edit.js:126-134 | a string ends at the first quote sign of its own that no backslash hides |
| Stripper.RegexEndMeaning | malong/write-edit.js:97-110 | a regex ends at the first slash that is neither hidden nor in a class, if no line feed comes before |
| Stripper.MayStartMeaning | malong/write-edit.js:80-94 | a slash may start a regex exactly if nothing but white space stands before it, or a sign or a keyword that an expression follows |
| Stripper.TokenMeaning | malong/write-edit.js:122-154 | what one turn of the scan takes off: a string, a line comment, a block comment or a regex, of which a blank is left, or a single character |
| Stripper.RegexMayStart | malong/write-edit.js:83-94 | the backward loops decide by the last character that is not blank, or the word it ends |
| Stripper.ScanRegexLiteral | malong/write-edit.js:97-110 | the end of a regex literal on its line, outside a class, or none |
| Stripper.StripLiterals | malong/write-edit.js:122-154 | one scan leaves what is left token by token |
| Stripper.CheckBracketBalance | malong/write-edit.js:156-171 | a text is accepted exactly if it is shell, or its brackets outside strings, comments and regexes are well nested |
| LiteralContents.LiteralLeavesBlank | malong/write-edit.js:133-143 | a terminated literal that the scan reaches between tokens leaves one blank, whatever it contains |
| LiteralContents.ContentsDoNotMatter | malong/write-edit.js:156-171 | then the verdict on the whole text does not depend on the contents |
| LiteralContents.ContentsMatter | malong/write-edit.js:148-151 | if a slash before the literal still waits for the end of a regex, what is left does depend on the contents |
| LiteralContents.WhenContentsMatter | malong/write-edit.js:122-154 | what is left of a text is the same for all contents exactly if the scan has finished with all that stands before the literal |
| LiteralContents.WhenVerdictDepends | malong/write-edit.js:156-171 | the verdict is the same for all contents exactly if the text is shell, or the scan has finished with all that stands before, or the brackets there are refused already |
| LiteralContents.VerdictFlips | malong/write-edit.js:156-171 | two texts that differ only inside quotes, one accepted and one not |
| CheckAttempts.BuildAttempts | malong/workflow/check-attempts.js:36-77 | all attempts, each once, operations paired with the jobs they name and the other jobs alone, newest first |
| CheckAttempts.AttemptsMeaning | malong/workflow/check-attempts.js:36-72 | what an attempt is, in terms of the records: the state, time and id that operation and job give it, the last job of an id counting |
| CheckAttempts.SameDirectory | malong/workflow/check-attempts.js:134-144 | two directories count as the same exactly if their segments are, empty ones and one leading dot aside |
| CheckAttempts.LowerMeaning | malong/workflow/check-attempts.js:145-148 | names of checks count as the same exactly if they agree letter by letter but for case |
| CheckAttempts.CoversMeaning | malong/workflow/check-attempts.js:157-164 | covering, check by check: determinate, same directory, every named check run |
| CheckAttempts.StoppedResolutions | malong/workflow/check-attempts.js:168-178 | every stopped attempt is listed, is resolved if a newer determinate attempt covers it, and only by a covering one that is not older; where attempts of one id and time share a state, exactly by a newer one |
| CheckAttempts.MoreJobsKeepSettled | malong/workflow/check-attempts.js:61-72 | a settled check stays settled when a job is added that no operation names |
| CheckAttempts.MoreOpsKeepSettled | malong/workflow/check-attempts.js:47-60 | and when an operation is added that names no known job |
| CheckAttempts.NewAttemptKeepsSettled | malong/workflow/check-attempts.js:36-77 | and when a new attempt is added, an operation together with the new job it names: all attempts so far remain and the new one joins them |
| CheckAttempts.OpForKnownJob | malong/workflow/check-attempts.js:47-60 | an operation added for a known job: a check is settled afterwards exactly if something else settles it or the two do together |
| CheckAttempts.JoinedOpSettles | malong/workflow/check-attempts.js:27-33 | they do, if the job alone did, exactly if the checks and the directory that the operation names still cover |
| CheckAttempts.JoinedOpStaysSettled | malong/workflow/check-attempts.js:47-60 | a stopped job stays settled by an attempt exactly if that is newer than its operation too and covers what it names |
| CheckAttempts.JobForKnownOps | malong/workflow/check-attempts.js:47-60 | a job added that operations name already: a check is settled afterwards exactly if something else settles it or one of them does together with the job |
| CheckAttempts.JoinedJobSettles | malong/workflow/check-attempts.js:51-58 | it does, if the operation alone did, exactly if the job has a result, is not older than the check, and names no directory of its own |
| CheckAttempts.JoinedJobStaysSettled | malong/workflow/check-attempts.js:51-58 | a stopped operation stays settled by an attempt exactly if that is newer than the job too and covers the directory |
| CheckAttempts.OpReopens | malong/workflow/check-attempts.js:47-60 | an operation that claims other checks for the job that settled a check reopens it |
| CheckAttempts.JobReopens | malong/workflow/check-attempts.js:47-60 | a job without a result, named by the operation that settled a check, reopens it |
| EffectiveState.SettledIds | malong/workflow/check-attempts.js:195-202 | exactly the operation ids of resolved attempts |
| EffectiveState.DoneIsFinished | malong/workflow/effective-state.js:35-108 | the decision chain says done of every task in which nothing runs, nothing was interrupted but checks since settled, no write is unsettled, every stopped check is settled, and the validated result is up to date, and of no other |
| EffectiveState.InFlightIsActive | malong/workflow/effective-state.js:35-108 | it says in flight exactly if a job or an operation is running |
| EffectiveState.AnswersMeaning | malong/workflow/effective-state.js:99-108 | an equivalence for each of the eight answers of the decision chain |
| EffectiveState.FlightMeaning | malong/workflow/effective-state.js:35-64 | what is reported as in flight, and how many there are |
| EffectiveState.Project | malong/workflow/effective-state.js:75-108 | the projection collected from record and jobs is done, in flight, cancelled or terminal exactly when it should be; a tie of id and time between attempts of different states is the only thing that the order of the records decides |
| Caches.TreeCache.Get | malong-parse/src/cache.rs:50-74 | a hit returns the entry last inserted for its key; a lookup moves an entry to the end and leaves the others in their order |
| Caches.TreeCache.MakeRoom | malong-parse/src/cache.rs:106-110 | the least recently used entries go until the new one fits by the books |
| Caches.MadeRoomMeaning | malong-parse/src/cache.rs:106-110 | only as many entries go as must, and the oldest: with one of them more the new one would not fit by the books |
| Caches.TreeCache.Insert | malong-parse/src/cache.rs:76-124 | at most 100 entries and 128 MiB are held; the books say too much by what they did before plus the bytes of the least recently used entry, if the cache is still full after making room and the key is new; a new entry that does not fit beside it ends up alone |
| Caches.LeakGrows | malong-parse/src/cache.rs:112-123 | a run of 101 inserts after which the books say one byte too much |
| Caches.SourceCache.Get | malong-parse/src/cache.rs:164-179 | a hit returns the value last inserted; an entry that is too old goes from entries and order |
| Caches.RetainMeaning | malong-parse/src/cache.rs:164-195 | a key taken out of the order leaves the others in their order |
| Caches.SourceCache.Insert | malong-parse/src/cache.rs:181-195 | the order lists exactly the keys, each once, at most 50; the oldest goes first and a known key keeps its place |
| Slots.HeavyFits | malong/semaphore.js:7-9 | a heavy call takes half the slots, rounded down, but at least three if there are that many; so it always fits, and from four slots on leaves room for a light one |
| Slots.GrantKeeps | malong/semaphore.js:45-50 | letting in the head keeps arrival order and the account of held weight |
| Slots.Dispatcher.Arrive | malong/semaphore.js:18-38 | a call is let in at once exactly if it fits and nobody waits; a blocked head stays blocked |
| Slots.Dispatcher.WaitTimeout | malong/semaphore.js:24-36 | a waiting call leaves the queue from wherever it stands, and nothing else changes; a blocked head is blocked no longer exactly if the call was the head and the next one fits |
| Slots.Dispatcher.Release | malong/semaphore.js:40-55 | afterwards the head does not fit, and exactly those that left the queue run |
| Slots.Dispatcher.Settle | malong/mcp-server.js:483-546 | a settled call has released exactly once, even if asked twice |
| Slots.Dispatcher.CallTimeout | malong/mcp-server.js:525-533 | a call that overruns keeps its slot |
| Slots.Dispatcher.SomeoneWillRelease | malong/semaphore.js:40-55 | as long as a call waits, some call holds a slot |
| Slots.TimeoutDoesNotWake | malong/semaphore.js:27-31 | for every limit and all weights that allow it: the head gives up, the next call fits and still waits |

## Left out

- WriteRuntime.Workspace.WriteSymbols: the edits of a file are given as old and new content; best_effort mode, a marker that cannot be written, validation and dry runs are not modelled, and file locks of the batch are free (a lock that stays busy for 30 s makes rollback and recovery skip the file and drop the marker).
- WriteRuntime.Workspace.RestoreBatch: the check of all members and their restore are one step; the code does not check again under the lock.
- WriteRuntime.Workspace.CreateJournal: the state is written once in full; base hashes, edit modes, audit log and pruning of journals are not modelled.
- WriteRuntime.Workspace.RollBackAll: nobody else steps in between two members, although the code looks at every member again under its lock.
- WriteRuntime.Workspace.RecoverBatches: one marker at a time, and errors of reading or writing files during recovery are not modelled.
- FileLock.NoLostUpdate: bases truncated at 1 MB are outside the claim, as the code skips the check there. Roll-back and undo of an edited file are file-level edits with the recorded hash as base and the backup as content; the removal of a created file by them is not a step of this model.
- BatchEdits.ApplyGroup: symbols have disjoint ranges, as the claim requires; file-level patches, creations and the base-version checks between items are not modelled.
- Server.Connection.OnRead: time limits, write errors and the handling of a request are not modelled.
- Indexer.Index.ResolveCrossFileRefs: the one retry after a stale snapshot is not modelled (it is another call); which of several candidates is preferred is left open.
- Indexer.Index.IndexFile: the rows come ready-made from the parser; enclosing functions of calls, anchors and indexBatch are not modelled.
- TaskStore.Store.UpdateTaskCas: the mutation is operationEvent; other kinds of events are not modelled.
- Claims.AtMostOneHolder: release is called by the holder only, and a pid is not reused while a claim with it exists.
- Retention.Ledger.Prune: which claims are live is given to it; everything of a record that is not used here is one text, which a compaction drops (the code keeps tool and effects of it); an update brings no creation time of its own; a prune runs without others in between.
- CheckAttempts.CoversMeaning: lower case is that of the Latin letters.
- EffectiveState.Project: freshness of the evidence is a parameter; which of two attempts with one id and one time stands first is left open.
- StableIds.MakeStableId: signature hashes are given; only that they hold no hash sign is used.
- Slots.Dispatcher.Settle: responses, the list of active requests and the watchdog reset are not modelled.
- Process spawning, sockets, timers, path and symlink guards, auth tokens beyond the handshake, tree-sitter, SQLite, real hashing and JSON text: operating system and library behaviour.
- Recovery of .ai-transactions, health checks, ranking, repo maps, catalogues and statistics: heuristics, presentation, or easier claims.
