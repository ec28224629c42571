# A verified model of the systems labs

This project models, in Dafny, the four programs of the repository that hold state worth reasoning
about, and proves what each of them is for. What the original does step by step on its own memory is a
class or a loop here, with the same fields, branches, error codes and constants, proved against a
specification function; what many threads do at once is a state machine over shared values, one action
for each stretch under a mutex or each step outside it. The promises are lemmas about those functions,
about every reachable state or about whole runs.

## The inode file system (`lab4/fs5600.c`)

| file | role |
|---|---|
| `fs_layout.dfy` | bytes, little-endian words, inode and directory-entry fields, bitmap bits |
| `fs_path.dfy` | splitting and cutting of paths |
| `fs_tree.dfy` | which tree of files and directories a raw disk stores (`FsInv`), and who owns which block |
| `fs_spec.dfy` | what each call does to that tree |
| `fs_bytes.dfy`, `fs_update.dfy`, `fs_stored.dfy` | what a few changed blocks do to the stored tree |
| `fs_ops.dfy` | the calls themselves, over an array of blocks |
| `fs_ownership.dfy` | bitmap and reachability on the raw disk |
| `fs_namespace.dfy`, `fs_refine.dfy` | the user's view: a tree of names and byte sequences |
| `fs_runs.dfy`, `fs_runner.dfy` | whole runs, free-space accounting, untouched paths |
| `fs_frame.dfy` | which blocks a call may write, and the free count a user is told |
| `fs_answers.dfy` | every call's code and bytes in terms of the user's tree |
| `fs_errors.dfy` | where the calls' error codes differ from those of path lookup |
| `fs_full.dfy` | a run that fills the image, and the call after it |

`FsInv` says of the raw disk that it stores a tree below root inode 2, that no two parts of the tree
share a block, and that the bitmap marks exactly blocks 0, 1 and the tree's. The tree is determined by
the disk (`RepUnique`), so it is bookkeeping and not an extra assumption.

Two places where the code departs from its documentation are modelled as written.

Path lookup tells a missing component (`ENOENT`) from one that is no directory (`ENOTDIR`)
(lab4/fs5600.c:106-117). create, mkdir, unlink and rmdir, which look up the parent first, return
`ENOTDIR` as documented when the parent itself is the file; when an earlier component is, they return
`ENOENT` instead, or `EINVAL` when create and mkdir find the last name too long before they look
(lab4/fs5600.c:661-669, 808-813, 863-868). rename and chmod turn every failed lookup of their path into
`ENOENT` (lab4/fs5600.c:549-552, 602). `CreateNotDir`, `RemoveNotDir`, `CreateInstead` and
`RenameAndChmodNotDir` say exactly when the codes agree, and `LookupAndCallsDiffer` is a call on a
one-file image that tells them apart.

`alloc_blk` scans the whole bitmap without looking at the image size, so an allocation on a full image
lands past its end and `f_bfree` falls below zero (lab4/fs5600.c:74-86, 369-375). `AllocInside` says
exactly when an allocation stays inside the image, `FreeCountExact` and `CreateWhenFull` exactly when
the count is right and when it is not, and `FullImageOverflows` is a run of three calls on the fresh
image that gets there.

## The concurrent key-value store (`lab3/kvstore.c`)

`kv_table.dfy` is the hash table as values, with delete as written; `kv_store.dfy` is the same table
as an array of heap nodes; `kv_monitor.dfy` is the readers/writer monitor as a state machine with any
number of threads, explicit waiting and notified threads, `signal` to any one sleeper, `broadcast` to
all, and spurious wakeups. A walk takes many steps; between them a thread holds only its place in the
chain, and each step reads the shared table as it is then. That a walk still returns the answer of the
moment it entered rests on the counter: `TableStandsStill` says what the counter guarantees, and
`WalksAreExposed` how a single step goes wrong without it.

The head case of `kv_delete` stores NULL where its documentation needs the rest of the chain
(lab3/kvstore.c:182-186 against 158-161). The code is kept as it is: `DeleteLosesAKey` is a run that
loses a key, and `DeleteAsDocumented` and `DeleteKeepsCount` say that the documented result and the
exact counter are kept if and only if the key does not head a longer chain; `ExactIffClean` carries
this to whole histories, and `CleanHistoryAnswers` says that the histories without such a delete answer
as the bounded map does.

## The shell (`lab2/cmdparse.c`, `lab2/cmdrun.c`)

`shell_lexer.dfy` has the tokens and the one-token rollback, `shell_grammar.dfy` the command-line
language and a reader of token streams proved to accept exactly that language, `shell_parser.dfy` the
two parsing procedures with their rollback, `shell_render.dfy` the inverse of parsing,
`shell_words.dfy` the tokens and lists as they are typed, said of the characters of the line,
`shell_exec.dfy` the operator semantics and `shell_process.dfy` the descriptor protocol.

A lexical error leaves both saved positions as they are, so the next rollback rewinds over a token that
was already consumed and replays it; a closing parenthesis can close several levels that way. The
contracts of `CmdParse` and `CmdLineParse` bound how far back such a replay goes, which is what
termination and the assertion in the rollback rest on, and no replay survives to a top-level success.

The failing `&&` branch of `cmd_line_exec` returns the status before the failing command, where the
comment above it promises that of the last completed command (lab2/cmdrun.c:387-393 against 327-350).
`FailingAndReturnsZero` is the smallest case and `StatusAsDocumented` the exact condition.

## Two list structures (`lab3/queue.c`, `lab1/queue.c`, `lab1/ciphered_queue_main.c`)

`task_queue.dfy` is the task queue: a linked list whose last `next` and emptied `head` hold arbitrary
pointers, and the monitor around it as a state machine that the linked list is proved to follow under
every schedule. `linked_queue.dfy` and `undo_history.dfy` are the queue of C strings, the cipher that
rewrites strings in place, and the array of snapshots with undo; `undo_laws.dfy` says of a whole file of
commands which strings come out, in which order, and what is printed.

## Model

| member | source | states |
|---|---|---|
| Paths.StrTok | lab4/fs5600.c:154-161 | one strtok call yields the first name of what is left, and the rest splits into the remaining names |
| Paths.SepPath | lab4/fs5600.c:154-161 | sep_path returns all names of a path, or -1 exactly when there are more than ten |
| Paths.ParPath | lab4/fs5600.c:163-170 | par_path cuts the source after the names before the last one |
| Paths.ParentTokens | lab4/fs5600.c:163-170 | that parent string splits into all names but the last |
| Paths.TokensCat | lab4/fs5600.c:154-161 | splitting inverts spelling, with or without a trailing slash |
| Layout.BitPutBits | lab4/fs5600.c:51-62 | setting or clearing one bitmap bit changes that bit and no other of the 32768 |
| FsOps.Fs5600.AllocBlk | lab4/fs5600.c:74-86 | takes and marks the lowest free block from 3 on, or returns ENOSPC and changes nothing |
| FsOps.Fs5600.FreeBlk | lab4/fs5600.c:94-100 | removes one block from the set marked used |
| FsOps.Fs5600.FreeData | lab4/fs5600.c:825-825 | removes exactly the data blocks of a file from the set marked used |
| FsOps.Fs5600.FindDirent | lab4/fs5600.c:172-181 | the first valid entry with the name, or none |
| FsOps.Fs5600.FindEmpty | lab4/fs5600.c:183-192 | the first free entry, or none when the directory is full |
| FsOps.Fs5600.FindFull | lab4/fs5600.c:194-203 | an entry in use exactly when the directory is not empty |
| FsOps.Fs5600.Path2Inum | lab4/fs5600.c:205-239 | the inode number or the error of the path in the stored tree |
| FsOps.Fs5600.Descend | lab4/fs5600.c:219-234 | the walking loop over the names gives the same answer as lookup in the tree |
| FsNamespace.ResolveIsFind | lab4/fs5600.c:205-239 | path lookup is lookup in the user's tree of names, errors included |
| FsAnswers.LookupExact | lab4/fs5600.c:219-234 | a path leads where the entry for its last name in the directory before it leads; ENOENT for a missing or too long name, ENOTDIR below a file |
| FsOps.Fs5600.StatFs | lab4/fs5600.c:345-381 | f_blocks is the image size less two, f_bfree that less the number of blocks the tree owns, in 32 and 64 bits |
| FsOps.Fs5600.CountUsed | lab4/fs5600.c:371-374 | the counting loop counts the blocks the tree owns |
| FsOps.Fs5600.ReadDir | lab4/fs5600.c:438-470 | the listing of the stored directory, or the error |
| FsRefine.ReadDirExact | lab4/fs5600.c:438-470 | a name and inode are listed if and only if that path resolves to that inode, and no name is listed twice |
| FsAnswers.ReadDirAnswers | lab4/fs5600.c:438-470 | readdir succeeds exactly for a directory, lists exactly its entries with their inodes, each once, and gives lookup's error or ENOTDIR otherwise |
| FsOps.Fs5600.Read | lab4/fs5600.c:481-516 | the count and the bytes read, or the error, and nothing changes |
| FsOps.Fs5600.ReadLoop | lab4/fs5600.c:495-511 | the block-wise loop reads the requested window of the file's one byte sequence |
| FsRefine.ReadIsWindow | lab4/fs5600.c:473-516 | a read returns exactly the min(len, size - offset) bytes from the offset, 0 past the end |
| FsAnswers.ReadAnswers | lab4/fs5600.c:481-516 | byte i of a read is byte offset + i of the file, for min(len, size - offset) bytes, none at or past the end; lookup's error or EISDIR otherwise |
| FsOps.Fs5600.Rename | lab4/fs5600.c:534-583 | the stored tree becomes the renamed one by a change of the directory block alone, or an error leaves the disk untouched |
| FsRefine.RenameRefines | lab4/fs5600.c:534-583 | a successful rename moves the subtree within its directory and allocates and frees nothing |
| FsRuns.RenamedPaths | lab4/fs5600.c:520-583 | everything under the old name resolves to the same inodes and contents under the new name, and nothing is left under the old one |
| FsAnswers.RenameAnswers | lab4/fs5600.c:549-561 | rename succeeds if and only if the old path leads somewhere, the new one nowhere and both name entries of one directory; otherwise ENOENT, EEXIST or EINVAL in that order |
| FsOps.Fs5600.Chmod | lab4/fs5600.c:598-616 | the twelve permission bits of the inode are replaced and not a byte besides; the stored tree stays the same |
| FsOps.Fs5600.Utime | lab4/fs5600.c:1008-1024 | the mtime of a file's inode is replaced and nothing besides; directories are refused |
| FsAnswers.TouchAnswers | lab4/fs5600.c:598-603 | chmod succeeds for every path that leads somewhere; utime (lines 1008-1016) for every file, with lookup's error or EISDIR otherwise |
| FsOps.Fs5600.FindPlace | lab4/fs5600.c:650-674 | where a new name goes, with the order of the error checks of create and mkdir |
| FsOps.Fs5600.Create | lab4/fs5600.c:639-698 | the stored tree gains the new file, its inode carries owner, permissions, type and times, only the bitmap, the inode and the directory block change; or an error leaves the disk untouched |
| FsOps.Fs5600.Mkdir | lab4/fs5600.c:716-783 | the stored tree gains the new empty directory, stamped likewise, and only four blocks change; or an error leaves the disk untouched |
| FsOps.Fs5600.AllocPair | lab4/fs5600.c:753-757 | two blocks are taken, or none: the first is given back when the second cannot be had |
| FsBytes.AllocThenFree | lab4/fs5600.c:757-757 | giving a block back right after taking it restores the bitmap byte for byte |
| FsRefine.CreateRefines | lab4/fs5600.c:619-698 | a successful create adds one empty leaf under a name that did not resolve, and one block |
| FsRefine.MkdirRefines | lab4/fs5600.c:702-783 | a successful mkdir adds one empty branch and two blocks that were free |
| FsAnswers.CreateAnswers | lab4/fs5600.c:650-688 | create succeeds if and only if the path leads nowhere, its last name has at most 27 characters, its parent is a directory of fewer than 128 entries and a block is free; otherwise EEXIST, EINVAL, ENOENT, ENOTDIR or ENOSPC in that order |
| FsAnswers.MkdirAnswers | lab4/fs5600.c:727-757 | the same for mkdir, with two free blocks |
| FsOps.Fs5600.FindVictim | lab4/fs5600.c:800-822 | the entry unlink and rmdir would remove, or the error |
| FsErrors.CreateNotDir | lab4/fs5600.c:663-669 | where lookup of the whole path says ENOTDIR, create and mkdir say so too if and only if the parent path resolves |
| FsErrors.RemoveNotDir | lab4/fs5600.c:808-813 | where lookup says ENOTDIR, unlink and rmdir say so too if and only if the parent path resolves, and ENOENT otherwise |
| FsErrors.CreateInstead | lab4/fs5600.c:661-664 | with a file before the parent, create and mkdir say EINVAL if the last name is too long and ENOENT otherwise |
| FsErrors.RenameAndChmodNotDir | lab4/fs5600.c:547-552 | rename (and chmod, line 602) says ENOENT whatever the lookup error, so it agrees with lookup if and only if that was not ENOTDIR |
| FsErrors.LookupAndCallsDiffer | lab4/fs5600.c:106-117 | after create /a on a fresh image, /a/b/c is ENOTDIR to lookup and ENOENT to create, while /a/b is ENOTDIR to both |
| FsOps.Fs5600.Unlink | lab4/fs5600.c:796-839 | the stored tree loses the file and all its blocks, the parent's mtime is set and nothing else changes; or an error leaves the disk untouched |
| FsOps.Fs5600.Rmdir | lab4/fs5600.c:849-898 | the stored tree loses the empty directory and its two blocks, the parent's mtime is set and nothing else changes; or an error leaves the disk untouched |
| FsRefine.UnlinkRefines | lab4/fs5600.c:786-839 | a successful unlink removes one leaf and frees exactly its inode and data blocks |
| FsRefine.RmdirRefines | lab4/fs5600.c:841-898 | a successful rmdir removes one empty branch and frees exactly its two blocks |
| FsAnswers.UnlinkAnswers | lab4/fs5600.c:803-822 | unlink succeeds if and only if the path leads to a file; otherwise ENOENT, ENOTDIR or EISDIR as parent and entry say |
| FsAnswers.RmdirAnswers | lab4/fs5600.c:855-885 | rmdir succeeds if and only if the path leads to an empty directory other than the root; otherwise ENOENT, ENOTDIR or ENOTEMPTY |
| FsOps.Fs5600.Write | lab4/fs5600.c:911-958 | the stored file's bytes become the spliced ones, owner, mode and ctime stay, mtime is set, and only the bitmap, the inode and the file's old and new blocks change; or an error leaves the disk untouched |
| FsOps.Fs5600.Store | lab4/fs5600.c:928-954 | the part of write after its checks, on the found file |
| FsOps.Fs5600.WriteData | lab4/fs5600.c:928-950 | the loop stores the buffer across block boundaries and freshly allocated blocks with arbitrary contents |
| FsOps.Fs5600.WriteRound | lab4/fs5600.c:932-950 | one round of the loop stores one block's share and keeps the loop's invariant |
| FsOps.Fs5600.AddBlock | lab4/fs5600.c:933-936 | a missing block is allocated and appended to the inode's pointers |
| FsRefine.WriteRefines | lab4/fs5600.c:900-958 | a successful write returns len, splices the buffer at offset <= size, and takes exactly the blocks the growth needs |
| FsAnswers.WriteAnswers | lab4/fs5600.c:911-956 | write succeeds if and only if the path leads to a file, the offset is at most its size and the end at most 4096 * 1019; every byte afterwards is the buffer's inside the range and the old one outside |
| FsAnswers.RoomExact | lab4/fs5600.c:932-936 | the room it is given is one free block for each it has to add |
| FsRefine.WriteThenRead | lab4/fs5600.c:473-516 | after a write the range reads back as the buffer and every other file reads as before |
| FsRefine.FileEditPaths | lab4/fs5600.c:911-994 | a write or truncation changes no path's inode or error and no other file's contents |
| FsOps.Fs5600.Truncate | lab4/fs5600.c:968-994 | the stored file becomes empty and its data blocks are freed by a change of bitmap and size alone, or an error leaves the disk untouched |
| FsRefine.TruncateRefines | lab4/fs5600.c:960-994 | a successful truncation empties the file in the user's tree and frees exactly its data blocks |
| FsAnswers.TruncateAnswers | lab4/fs5600.c:968-980 | truncate succeeds exactly for a file and length 0; otherwise EINVAL, lookup's error or EISDIR in that order |
| FsOwnership.UsedIffReached | lab4/fs5600.c:74-100 | a block from 2 on is marked used if and only if the disk reaches it from root inode 2 |
| FsOwnership.ReachedOnce | lab4/fs5600.c:74-100 | a reached block is reached at one address in one role, as inode, directory block or data block |
| FsOwnership.RepUnique | lab4/fs5600.c:132-152 | a disk stores at most one tree below an inode |
| FsRuns.StepKeeps | lab4/fs5600.c:639-994 | every call keeps the tree well-formed and changes the number of blocks in use by its exact amount: 1, 2, -2, -(1 + ceil(size/4096)), -ceil(size/4096), or the difference of rounded-up sizes |
| FsRuns.RunKeeps | lab4/fs5600.c:345-381 | over any run the blocks in use change by the sum of those amounts |
| FsRuns.FootCost | lab4/fs5600.c:345-381 | the number of blocks in use is a function of the user's tree alone |
| FsRuns.RunRestores | lab4/fs5600.c:345-381 | any run that ends with the files it began with, under the same names and of the same sizes, ends with as many blocks in use as it began with |
| FsFrame.FreeAfterRun | lab4/fs5600.c:361-376 | over any run the reported f_bfree falls, modulo 2^64, by the sum of those amounts, and a run that leaves the user's tree as it was leaves it as it was |
| FsRunner.FreeAround | lab4/fs5600.c:345-381 | statfs before and after any run of calls on an image in use: the two answers differ by exactly that sum, and not at all if the user's tree is the same |
| FsRuns.AllocInside | lab4/fs5600.c:74-86 | alloc_blk stays inside an image of the given size if and only if a block from 3 on is free there |
| FsRuns.FreeCountExact | lab4/fs5600.c:361-376 | f_bfree is the number of free blocks of the image if and only if no block past its end is in use |
| FsRuns.CreateWhenFull | lab4/fs5600.c:361-376 | create on a full image succeeds with the block just past its end, and the free count becomes -1 |
| FsFullImage.FullImageOverflows | lab4/fs5600.c:74-86 | on the fresh image of 400 blocks one create and one write use up every block, the next create takes block 400 and the free count is -1 |
| FsRuns.UntouchedPaths | lab4/fs5600.c:519-994 | every path a call does not name keeps its inode or its error, and a file there its contents |
| FsRuns.UntouchedCodes | lab4/fs5600.c:205-239 | path2inum returns the same on every such path |
| FsRuns.OwnPath | lab4/fs5600.c:619-898 | create and mkdir make a path resolve that did not; unlink and rmdir make one unresolvable that did |
| FsRunner.Apply | lab4/fs5600.c:534-1024 | each call on a spelled path does to the stored tree what the step function says and writes only the bitmap and blocks the tree owns before or after; a negative code means that not a byte of the disk has changed |
| FsRunner.RunOps | lab4/fs5600.c:534-1024 | any run of calls on an image in use stores the run's tree, and block 0 stays as it was |
| FsRunner.RunAll | lab4/disk2.in:12-18 | after any run of calls from a fresh image the raw disk marks a block from 2 on used if and only if it is reached from inode 2, each in one way only, and stores the run's tree with 2 plus the sum of the amounts blocks; block 0 is as it was |
| FsRunner.FreshImageExists | lab4/disk2.in:12-18 | there is such an image: root inode 2 with directory block 399 and nothing else |
| KvTable.Hash33 | lab3/kvstore.c:12-17 | the loop computes the bucket function with 32-bit wrap-around and signed characters |
| KvTable.HashExact | lab3/kvstore.c:12-17 | one more character makes 33 times the hash plus the signed character, in 32 bits; the bucket is the low 31 bits modulo 200 |
| KvTable.WriteRefines | lab3/kvstore.c:98-155 | write overwrites or inserts, fails exactly for a new key with the counter at the limit, and keeps keys unique, in their buckets and counted |
| KvTable.DeleteRefines | lab3/kvstore.c:165-202 | which keys the written delete drops; the table stays well-formed and within its limit |
| KvTable.DeleteDrops | lab3/kvstore.c:181-192 | another key is lost by a delete if and only if it shares the bucket and the deleted key comes first there |
| KvTable.DeleteAsDocumented | lab3/kvstore.c:158-194 | delete removes exactly the key if and only if the key does not head a longer chain |
| KvTable.DeleteKeepsCount | lab3/kvstore.c:181-192 | the counter stays the number of keys under the same condition |
| KvTable.DeleteLosesAKey | lab3/kvstore.c:182-186 | two keys of one bucket, and the delete of one that loses the other |
| KvTable.SizeIsKeyCount | lab3/kvstore.c:98-110 | the map has as many keys as the chains have entries, at most TABLE_MAX |
| KvMonitor.ExactIffClean | lab3/kvstore.c:138-192 | after any history the counter is exact if and only if no delete in it met its key at the head of a longer chain |
| KvMonitor.RefusedTooEarly | lab3/kvstore.c:138-140 | after any history a new key is refused with room to spare if and only if the counter is at its limit and some delete met its key at the head of a longer chain |
| KvTable.RefusedAt199 | lab3/kvstore.c:138-140 | such a table: after one faulty delete and 199 writes the store refuses the 200th key |
| KvStore.Store.constructor | lab3/kvstore.c:19-25 | the empty table |
| KvStore.Store.Walk | lab3/kvstore.c:77-83 | the chain walk finds the node that holds the key, and its predecessor |
| KvStore.Store.Read | lab3/kvstore.c:69-95 | the heap table answers as the table of values does |
| KvStore.Store.Write | lab3/kvstore.c:116-155 | the heap table changes as the table of values does, key and value copied |
| KvStore.Store.Delete | lab3/kvstore.c:165-202 | the heap table changes as the table of values does, head case included |
| KvStore.Store.Dump | lab3/kvstore.c:215-222 | the two loops visit every entry, bucket by bucket and along each chain |
| KvMonitor.NextKeeps | lab3/kvstore.c:69-229 | the invariant of the monitor is kept by every step of every thread |
| KvMonitor.ReadersXorWriter | lab3/kvstore.c:69-202 | over all interleavings the counter is -1 exactly with one writer and no reader inside, and otherwise the number of readers inside |
| KvMonitor.AnswerIsMeaning | lab3/kvstore.c:77-86 | the step that ends a walk over the shared chains takes the value the map has now, which is the one it had when the reader entered |
| KvMonitor.ReadersSeeTheirEntry | lab3/kvstore.c:77-95 | in every run a reader about to return holds what the map held at the moment it entered: the value under its key, or every entry once |
| KvMonitor.TableStandsStill | lab3/kvstore.c:71-75 | while a reader is inside, no step of any thread changes the table |
| KvMonitor.WalksAreExposed | lab3/kvstore.c:77-83 | were the table changed under a walk, the same step would return another value |
| KvMonitor.Linearizable | lab3/kvstore.c:58-202 | the operations have a legal sequential order; its places correspond one to one to those that returned and the readers still inside, each between its call and its return |
| KvMonitor.NoLostWakeup | lab3/kvstore.c:88-91 | whenever the counter is 0 and a thread sleeps, another has been notified and can enter |
| KvMonitor.NotifiedEnters | lab3/kvstore.c:71-75 | with the counter 0 a notified thread's next test lets it in |
| KvMonitor.EntersExactly | lab3/kvstore.c:71-75 | a reader is let in if and only if no writer is inside, a writer if and only if nobody is, at its call and after every wakeup |
| KvMonitor.AllCanFinish | lab3/kvstore.c:148-151 | no deadlock: from every reachable state all operations under way can be completed |
| KvMonitor.ReplayGood | lab3/kvstore.c:116-202 | after any history keys are unique, in their buckets, and never more than TABLE_MAX |
| KvMonitor.CleanHistoryIsMap | lab3/kvstore.c:98-202 | a history without the faulty head delete is that of a map bounded at 200 keys with an exact counter |
| KvMonitor.CleanHistoryAnswers | lab3/kvstore.c:98-202 | in such a history every operation has the result the bounded map gives: the value, the refusal at 200 keys, the entries |
| KvTable.FlatLists | lab3/kvstore.c:207-222 | what the dump lists is the map: every key once, with its value |
| ShellLexer.ParseState.GetToken | lab2/cmdparse.c:52-146 | the scanning loop delivers the token of the lexer function; an error moves neither saved position |
| ShellLexer.ParseState.UngetToken | lab2/cmdparse.c:163-170 | one token back; its assertion is the precondition, and it never lands on an error |
| ShellLexer.NormalIsWordlike | lab2/cmdparse.c:85-112 | a normal token has no double quote and no NUL, an even number of backquotes and at most 1023 characters |
| ShellWords.LexExact | lab2/cmdparse.c:52-146 | after space the token is the stretch of the line up to the first space, NUL or ( ) ; outside quotes, or a lone ( ) ;, with its double quotes removed; End and Error exactly when there is no such stretch |
| ShellWords.BareWordLexes | lab2/cmdparse.c:73-112 | a word without spaces, quotes and ( ) ; is delivered character by character |
| ShellWords.TypedParses | lab2/cmdparse.c:242-450 | every list of bare words, files, operators and subshells, typed as it stands, is parsed into that list |
| ShellGrammar.ReadsExactlyTheLanguage | lab2/cmdparse.c:242-450 | the reader of token streams succeeds if and only if the tokens spell a line of the declarative language, and returns what it means |
| ShellGrammar.ReadLineShaped | lab2/cmdparse.c:437-443 | every list returned is joined by real operators and ends with END, ; or &, at every depth |
| ShellGrammar.ShapedPrints | lab2/cmdparse.c:459-529 | on lists of that shape no assertion of cmd_print fails |
| ShellGrammar.PrintsExactly | lab2/cmdparse.c:459-529 | the assertions hold on no other list: more than 512 arguments or a wrong last operator fails one |
| ShellParser.CmdParse | lab2/cmdparse.c:253-357 | terminates, never fires the rollback's assertion, stands further on or back at a first word after a replay, and on error-free lines returns what the reader returns |
| ShellParser.CmdLineParse | lab2/cmdparse.c:371-450 | terminates, ends at the right terminator, and on error-free lines returns what the reader returns; its last test never fails |
| ShellParser.FollowCommand | lab2/cmdparse.c:408-434 | the token after a command makes the list go on, end or fail as the reader says |
| ShellParser.ParseLine | lab2/cmdparse.c:371-450 | at the top level the result is None whenever the line has a lexical error anywhere, and the reader's otherwise |
| ShellParser.ParsedIsTheLanguage | lab2/cmdparse.c:242-450 | a line is accepted with a list if and only if it lexes without error into a spelling of that list, every token accounted for |
| ShellRender.ToksOfSpell | lab2/cmdparse.c:52-146 | quoted words and operators separated by spaces lex back into the tokens they were written from |
| ShellRender.ParseRenderParse | lab2/cmdparse.c:253-450 | every list the parser returns, rendered in quotes and with redirections in fixed order, parses back to itself |
| ShellRender.ParserImage | lab2/cmdparse.c:253-450 | the lists the parser can return are exactly the non-empty well-shaped lists of lexable words |
| ShellRender.ParsedPrints | lab2/cmdparse.c:459-529 | no assertion of cmd_print fails on a parsed list |
| ShellExec.ExitsExactly | lab2/cmdrun.c:220-233 | the list ends the process that runs it if and only if the last command run is an exit with at most one argument |
| ShellExec.ExitEnds | lab2/cmdrun.c:220-233 | exit without an argument or with 0 ends the list's process with 0, with another argument with the value the world gives it, and nothing after it is run |
| ShellExec.StatusAsDocumented | lab2/cmdrun.c:327-413 | the returned status is that of the last completed command, background and pipe counting as 0, unless the list stops at a failing && whose status differs from the one before |
| ShellExec.OrdinaryReturns | lab2/cmdrun.c:374-412 | for ordinary commands the status is the exit status of the last one run, 0 for one in the background or in front of a pipe, and for a failing && the status left before it |
| ShellExec.SubshellStatus | lab2/cmdrun.c:156-161 | a subshell exits with 0 or 5 for the documented status of its list, unless it stops at a failing && after status 0 |
| ShellExec.OrdinarySubshell | lab2/cmdrun.c:156-161 | a subshell of ordinary commands exits with 0 if that status is 0 and with 5 otherwise |
| ShellExec.FailingAndReturnsZero | lab2/cmdrun.c:387-393 | false && true returns 0 although the last completed command failed |
| ShellProcess.Process.RedirectTo | lab2/cmdrun.c:138-152 | open, dup2 and close replace one standard descriptor, or nothing when the file cannot be opened |
| ShellProcess.Process.SetUp | lab2/cmdrun.c:128-152 | the child's steps leave it the shell's table at entry with at most 0, 1 and 2 replaced |
| ShellProcess.Process.ParentSide | lab2/cmdrun.c:204-211 | the parent keeps only the new read end beyond the table at entry |
| ShellProcess.Process.CmdExec | lab2/cmdrun.c:100-324 | the child's status, its table and all its descendants', and the table the shell is left with |
| ShellProcess.Process.CmdLineExec | lab2/cmdrun.c:352-413 | the loop returns the outcome of the operator semantics, and the descriptor table on every return is the one at entry |
| ShellProcess.SpawnsExactly | lab2/cmdrun.c:352-413 | among the processes the executor forks there is one for command j if and only if every earlier command lets the list go on |
| ShellProcess.SpawnsByStatus | lab2/cmdrun.c:374-412 | among ordinary commands command j is forked if and only if every && before it follows an exit status of 0 and every or-operator another one |
| ShellProcess.PipeEndsExactly | lab2/cmdrun.c:112-137 | child k and no other gets the write end of pipe k, child k + 1 and no other its read end, unless a redirection replaces it |
| ShellProcess.ChildDescriptors | lab2/cmdrun.c:138-152 | descriptor 0, 1 or 2 of a child is the named file if and only if its redirection names that file and it opens; without redirection and pipe it is the shell's |
| ShellProcess.PipeEndsStayHome | lab2/cmdrun.c:112-137 | in the whole tree of processes a write end is only in the child it was made for and what that child forks, a read end only in the next, and no descriptor is left over |
| ShellProcess.OneOwner | lab2/cmdrun.c:122-137 | no two processes of a run share a name, so each pipe has one owner |
| ShellProcess.RunLine | lab2/main.c:61-80 | a line is parsed and run; the executor never meets a pipe without a right-hand side |
| TaskQueue.Queue.Enqueue | lab3/queue.c:16-24 | appends the task whatever its next field holds |
| TaskQueue.Queue.Dequeue | lab3/queue.c:39-41 | removes the first task; head and the last next may be anything |
| TaskQueue.Monitor.Produce | lab3/dbserver.c:93-95 | a new task goes to the end and every sleeper is woken |
| TaskQueue.Monitor.Consume | lab3/queue.c:33-45 | one turn of dequeue: sleep when empty, else take the first task |
| TaskQueue.Monitor.Count | lab3/queue.c:49-57 | the number of tasks in the queue |
| TaskQueue.Monitor.Execute | lab3/queue.c:12-57 | under every schedule the linked list does what the abstract queue does |
| TaskQueue.NextKeeps | lab3/queue.c:12-45 | handed over, then queued, is exactly what was put in; nobody sleeps unnotified beside a task |
| TaskQueue.FifoExactlyOnce | lab3/queue.c:12-45 | in every run the i-th task handed over is the i-th put in, to one worker, and none is lost |
| TaskQueue.ServedInOrder | lab3/queue.c:12-45 | the connections handed over, then those queued, are those the schedule puts in, in its order |
| TaskQueue.WorkerDrains | lab3/queue.c:33-45 | from every reachable state a worker can serve all waiting tasks, in order |
| TaskQueue.SleeperIsServed | lab3/queue.c:26-37 | a worker asleep at an enqueue is woken and can take that task |
| LinkedQueue.CopyString | lab1/queue.c:14-15 | the string is copied into new memory |
| LinkedQueue.Queue.Enqueue | lab1/queue.c:11-25 | appends a copy of the string |
| LinkedQueue.Queue.Dequeue | lab1/queue.c:35-47 | removes the first node, which leaves the queue's memory, or returns NULL |
| LinkedQueue.FreeQueue | lab1/queue.c:56-65 | empties the queue, node by node |
| LinkedQueue.PrintQueue | lab1/queue.c:94-110 | the printed text is the joined contents |
| LinkedQueue.JoinedSnoc | lab1/queue.c:94-110 | each string in brackets, an arrow between two of them |
| LinkedQueue.CopyQueue | lab1/ciphered_queue_main.c:78-88 | a copy with the same contents in new memory only |
| LinkedQueue.Encode | lab1/caesar.c:13-35 | encodes in place, or gives ILLCHAR exactly when some character is not a letter or digit |
| LinkedQueue.Decode | lab1/caesar.c:43-74 | decodes in place up to the first character it cannot decode |
| LinkedQueue.CipherMoves | lab1/caesar.c:13-35 | every character moves by the key in its own alphabet; only a step back over the first character leaves it, by less than its size |
| LinkedQueue.DecipherMoves | lab1/caesar.c:43-74 | every character up to the first illegal one moves back by the key, the rest stay |
| LinkedQueue.DecipherCipher | lab1/caesar.c:13-74 | decoding undoes encoding if and only if the key keeps every character in its own alphabet despite the signed remainder |
| LinkedQueue.BackwardKeyLosesA | lab1/caesar.c:22-25 | key -1 turns a into a character that decoding leaves as it is |
| UndoHistory.EncodeAndEnqueue | lab1/ciphered_queue_main.c:21-25 | appends the encoded string, or ILLCHAR |
| UndoHistory.DequeueAndDecode | lab1/ciphered_queue_main.c:27-37 | removes and decodes the first string |
| UndoHistory.History.TakeSnapshot | lab1/ciphered_queue_main.c:105-106 | one more snapshot, in new memory, with the contents of the newest |
| UndoHistory.History.OnTop | lab1/ciphered_queue_main.c:107-136 | the command changes the newest snapshot only |
| UndoHistory.History.DropSnapshot | lab1/ciphered_queue_main.c:138-145 | the newest snapshot goes, the others keep their memory and contents |
| UndoHistory.History.ProcessLine2 | lab1/ciphered_queue_main.c:90-154 | one line acts on the stack of snapshots as specified; only undo touches the memory of an existing one |
| UndoHistory.ProcessFile | lab1/ciphered_queue_main.c:186-219 | a whole file: the stack of snapshots and everything printed, up to the first rejected line |
| UndoHistory.KeptIsStays | lab1/ciphered_queue_main.c:137-146 | the commands left over by undo are exactly those after which commands always outnumber undos |
| UndoHistory.StackIsReplay | lab1/ciphered_queue_main.c:105-146 | the j-th snapshot is what the first j commands not undone make of the empty queue |
| UndoHistory.UndoMeansNeverDone | lab1/ciphered_queue_main.c:90-154 | the live queue after any commands and undos is the one that only the commands not undone give |
| UndoLaws.QueueConserves | lab1/ciphered_queue_main.c:105-146 | the strings taken out, then the live queue, are exactly those put in by the commands not undone, in order |
| UndoLaws.NothingUndone | lab1/ciphered_queue_main.c:137-146 | without undo that is every command |
| UndoLaws.PrintedExactly | lab1/ciphered_queue_main.c:111-136 | each dequeue prints one line: the next string in that order, deciphered where asked for unless it is ILLCHAR, and NULL if and only if none is left |
| UndoLaws.TypedIsMeant | lab1/ciphered_queue_main.c:107-146 | a typed command, with its key in decimal, is accepted and means that command |
| UndoLaws.RejectedExactly | lab1/ciphered_queue_main.c:60-77 | a line is rejected if and only if its command lacks arguments |

## Left out

File system:

- FsOps.Fs5600.Write: requires enough free blocks for the growth. When the bitmap runs out midway the stored pointer is an unsigned word, the test at lab4/fs5600.c:935 can never fire, and the next block access is outside the image; the device's behaviour there is not part of this model.
- FsOps.Fs5600.Rename: requires a target name of at most 27 characters; the code copies a longer one into the 28-byte field without a check (lab4/fs5600.c:575).
- FsOps.Fs5600.Create: paths have single slashes and at most ten names, which is how the FUSE layer spells them; the 300-byte parent buffer of the C code is unbounded here. The same holds for every call that takes a path.
- FsOps.Fs5600.Unlink: the path names something below the root, as the code indexes the token before the first for `/` (lab4/fs5600.c:818).
- FsOps.Fs5600.ReadDir: gives names and inode numbers; the struct stat handed to the callback is left out, and so is fs_getattr.
- Block device errors: `block_read` and `block_write` never fail, as most call sites assume.
- Crash consistency: claims are about completed calls; there is no journal.
- Permission bits are never checked, as in the code; the clock and the caller's identity are parameters.
- Sizes and offsets are unbounded naturals below the largest file; the FUSE callbacks, `fs_init`, the device layer and the image tools are left out.

Key-value store:

- KvStore.Store.Read: gives the value found; the C function returns a pointer into the store that a later write frees, and lifetime after return is not modelled.
- KvTable.DeleteRefines: states what the written head case does, which is weaker than the comment promises; the exact condition is in DeleteAsDocumented.
- `kv_destroy`, request framing, sockets, tracing, statistics and process shutdown.
- Keys longer than the fixed key field, memory exhaustion, and the text format of the dump.
- Fairness: that a particular waiting thread is eventually chosen is not claimed, only that none is forgotten and all can finish.

Shell:

- ShellParser.ParseLine: the first token is not a lexical error, for which the source's assertion fires (lab2/cmdparse.c:167).
- ShellParser.CmdLineParse: commands form a sequence instead of a list linked by next pointers, and memory failure and `cmd_free` are left out.
- ShellProcess.Process.CmdExec: fork, pipe and waitpid succeed, children exit normally, execvp does not return, and the processes of a list, which run concurrently, are described one after the other; they share no descriptor table.
- ShellProcess.Process.CmdLineExec: the list has the shape that every parsed list has; on a list with a pipe and no right-hand side the source aborts (lab2/cmdrun.c:114-118, 369-371).
- ShellProcess.Process.Work: what a command does besides its exit status is left out: messages of the built-ins, directory changes, and the value that strtol or errno give `exit` when it has an argument other than 0.
- ShellProcess.Process.Pipe: the shell starts with descriptors 0, 1 and 2 open, as pipe and open give the lowest free number.

Queues:

- UndoHistory.ProcessFile: takes lines already split into their words, at least one each; the splitting, the limit of three words and the removal of the newline are left out. The snapshot array must not overflow, which the code does not check (lab1/ciphered_queue_main.c:106).
- UndoHistory.History.DropSnapshot: freeing is emptying; use after free and leaks are not modelled.
- Integer ranges of `atoi`, keys and task counts.
- TaskQueue.Monitor.Consume: `free` of a served task and the worker's dispatch are left out.
