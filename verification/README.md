# Models of the filesystem ports and their harness

The repository runs filesystem tests inside a kernel: a fixture that deploys an NFS server and
client in one place, and ports of xfstests that drive it. Most ports call the kernel in a straight
line. This project models the others, the ones that hold an algorithm, a shared data structure or a
protocol between threads, and the two scripts that process coverage tracefiles. The kernel appears
only as small abstract contracts: a directory tree, a `SEEK_DATA` answer, a READDIR cookie, a
counting completion. Offsets in a sparse file are as SEEK in section 15.11 of RFC 7862, directory
positions as READDIR in section 18.23 of RFC 8881.

Code that changes state is a class or a method with loops, proved against a function of its inputs
or its old state; the two-thread ports are step relations, proved over runs of every length and
every interleaving.

| file | models |
|---|---|
| `MovingDirectory.dfy` | generic/707, a thread creating files in a directory that another one keeps renaming |
| `Handshake.dfy` | generic/761, the go/done/stop handshake over a buffer under a direct write |
| `Fixture.dfy` | deployment, teardown and reference counting in nfs_fixture.c |
| `Credentials.dfy` | credential override in nfs_fixture.c, under both reference disciplines of the kernel |
| `AllocSize.dfy` | generic/436 and 539, the search for the allocation unit |
| `SparseCopy.dfy` | generic/286, the SEEK walk |
| `Readdir.dfy` | generic/257, enumeration in batches over reopened directories |
| `RotXor.dfy`, `DirHash.dfy` | generic/339, the directory hash and the names made to collide under it |
| `Stream.dfy`, `CopyChain.dfy` | generic/001, the seeded contents and the chains of copies |
| `Shadow.dfy` | generic/075, the shadow array |
| `TreeCopy.dfy` | generic/100, recursions over one shared path buffer |
| `NameTable.dfy`, `XattrStorm.dfy` | generic/007 and 070, checkers with a table |
| `Lcov.dfy`, `LcovFilter.dfy` | coverage-diff.py's parser, coverage-filter.py, and the two together |
| `Decimal.dfy`, `Bytes.dfy`, `Options.dfy` | numerals as printed and parsed by the above; exclusive or of bytes; an option type |

`dafny verify dfyconfig.toml` checks everything.

## Where the code and its description differ

- Release order (`Fixture`): four parts of the deployment go in reverse order, but the held root
  path, acquired last, is also released last, in order not to disturb unmounting. A run releases in
  strictly reversed order exactly if no put in it gives back the last reference, so a single get
  and put is already an exception.
- `xfs_scratch_umount` (`Fixture`): the header promises that no scratch mount is left; the loop
  gives up after eight. So nothing is held whenever there are no references exactly in the runs in
  which no last put comes with more than eight scratch mounts; after nine, one stays mounted.
- The allocation-unit search (`AllocSize`) is not exact for every unit. If doubling meets the unit
  below the block size, units 2 and 3 are answered exactly, 1 is answered 2 and 4 is answered 3,
  and a larger unit is answered exactly if it leaves remainder 0 or 1 modulo 4, one low for 2 and
  one high for 3. If doubling reaches the block size first, the answer is the power of two at which
  it stopped (8 for unit 6 and block size 8); for block sizes up to 2 it is 2 or 3. `Exact` gives
  the condition for every unit and every block size.
- The generated names (`DirHash`) do not all have one hash: only the low 29 bits are fixed. Two
  accepted buffers collide exactly if bits 1 to 3 of their prefixes' hashes agree, and a computed
  zero byte ends the name early and undoes the steering altogether.
- The tree checker (`TreeCopy`) recognises names with one digit only, so it accepts right trees
  exactly up to ten files and ten directories per level; and it reads only as many bytes as a file
  should have, so it does not notice a file that is too long.
- The attribute checker (`XattrStorm`) keeps 16-bit generations of which 0 means absent. It is exact
  as long as no operation looks at a generation that has wrapped to 0, hence below 65536 operations.
- `parse_lcov` (`Lcov`) does not look at a count for a line already known as executed, so whether
  it stops on a count that is no number can depend on the order of the records. It reads them in
  every order, however often repeated, exactly if it reads each record on its own; and then, and
  whenever it reads at all, the result depends only on which records there are.

## Model

| member | source | states |
|---|---|---|
| MovingDirectory.RunKeepsInv | kunit/xfstests/generic/707.c:58-162 | every state of every interleaving satisfies the invariant: where the directory is, what it holds, what the creator has counted |
| MovingDirectory.MoverKeepsInv | kunit/xfstests/generic/707.c:121-172 | each step of the renaming thread, from mkdir to the final rmdir, keeps the invariant |
| MovingDirectory.CreatorKeepsInv | kunit/xfstests/generic/707.c:64-76 | each step of the creator keeps it: reading `where`, resolving the path, creating by inode and counting are separate steps |
| MovingDirectory.RenameMovesHome | kunit/xfstests/generic/707.c:135-143 | a rename from the one slot that holds the directory succeeds and makes the next slot the only holder |
| MovingDirectory.OneParentAndNoFailedMove | kunit/xfstests/generic/707.c:121-145 | no rename or mkdir ever fails; exactly one parent holds the directory while a loop runs and none between loops; `where` lags by at most one |
| MovingDirectory.EveryCreatedFileSurvives | kunit/xfstests/generic/707.c:145-160 | at the join the last parent's directory holds exactly `created` files; the check for missing files never fails, and the error check fails only for an error a move does not explain |
| MovingDirectory.EveryFileIsTriedOnce | kunit/xfstests/generic/707.c:64-69 | by the join of a loop every file has been tried exactly once, at the parent that `where` named at that moment |
| MovingDirectory.EveryFileIsAccountedFor | kunit/xfstests/generic/707.c:64-78 | at the join, reading the kernel's answers off the schedule: the last parent's directory holds exactly the files whose create succeeded, `created` is their number and with the misses and the refusals makes all the files, `err` is the latest refusal; without moves and refusals every file is created |
| MovingDirectory.RefusalsAreReported | kunit/xfstests/generic/707.c:75-76 | the test has recorded an error exactly if some loop that was joined had a refusal |
| MovingDirectory.EveryLoopIsJoined | kunit/xfstests/generic/707.c:121-147 | no loop is left out: each of them reaches its join |
| MovingDirectory.CheckFindsMissingIff | kunit/xfstests/generic/707.c:151-160 | in any state, reachable or not, the count over the last parent reports missing files exactly if fewer are there than were counted |
| MovingDirectory.RunIsBounded | kunit/xfstests/generic/707.c:64-76 | every run's length is bounded by a function of moves, files and loops |
| MovingDirectory.NotStuck | kunit/xfstests/generic/707.c:121-172 | some thread can take a step until the test is over |
| MovingDirectory.EveryScheduleFinishes | kunit/xfstests/generic/707.c:121-172 | so every schedule ends, and ends in the finished state |
| Handshake.RunKeepsInv | kunit/xfstests/generic/761.c:50-121 | every interleaving, down to single byte copies by the write and by the memset, keeps the protocol invariant, the buffer's exact contents and the file's |
| Handshake.ClearNeverOverlapsRefill | kunit/xfstests/generic/761.c:107-117 | while the buffer is refilled the worker is parked with no signal pending; there is exactly one clear per block |
| Handshake.FileHoldsOnlyTheTwoPatterns | kunit/xfstests/generic/761.c:123-138 | every byte that reached the file is 0xff or 0x00, and after full writes every offset below the size has been written |
| Handshake.FileHoldsWhatWasSeen | kunit/xfstests/generic/761.c:107-111 | every byte of the file is what the buffer held for that offset at some moment while its block was being written |
| Handshake.EveryBlockIsWritten | kunit/xfstests/generic/761.c:107-117 | the loop ends early exactly if a write falls short, and otherwise after just as many blocks as cover the size |
| Handshake.WorkerIsGoneAfterTheLastWait | kunit/xfstests/generic/761.c:118-121 | once the last wait has returned the worker has exited and no step of it is left |
| Handshake.EveryScheduleProgresses | kunit/xfstests/generic/761.c:55-62 | every step uses up work except copying a byte again, and until the end some step that uses up work is possible, so no reachable state is stuck |
| Fixture.Deployment.BringUp | kunit/xfstests/nfs_fixture.c:953-1037 | the result is the first failing call's error, and what was acquired before it stays recorded |
| Fixture.Deployment.Prepare | kunit/xfstests/nfs_fixture.c:958-976 | succeeds exactly if the first five calls do, tolerating EEXIST from mkdir, and acquires nothing |
| Fixture.Deployment.MountExport | kunit/xfstests/nfs_fixture.c:978-998 | mounts the export with the options in force, then the server's filesystem, recording each |
| Fixture.Deployment.StartServer | kunit/xfstests/nfs_fixture.c:1000-1012 | export table, then server, stopping at the first failure |
| Fixture.Deployment.HostbinMount | kunit/xfstests/nfs_fixture.c:1065-1079 | mounted at most once; succeeds exactly if it is mounted afterwards |
| Fixture.Deployment.ScratchMount | kunit/xfstests/nfs_fixture.c:1269-1277 | stacks one more scratch mount if both calls succeed |
| Fixture.Deployment.ScratchUmount | kunit/xfstests/nfs_fixture.c:1279-1288 | returns 0 always; nothing is left exactly if there were at most eight |
| Fixture.Deployment.Teardown | kunit/xfstests/nfs_fixture.c:1200-1242 | the whole release, whatever part of the deployment is up, and the options reset |
| Fixture.Deployment.Get | kunit/xfstests/nfs_fixture.c:1290-1303 | only the first get deploys; one that fails tears down what it had and takes no reference |
| Fixture.Deployment.Put | kunit/xfstests/nfs_fixture.c:1305-1311 | the last put tears down |
| Fixture.OpKeepsInv | kunit/xfstests/nfs_fixture.c:1290-1311 | every call, with any fault in a bring-up, keeps the invariant between flags, references and the history of acquisitions |
| Fixture.BringUpIsPartial | kunit/xfstests/nfs_fixture.c:953-1037 | a bring-up that stops anywhere leaves flags that match what was acquired, in order |
| Fixture.TeardownClears | kunit/xfstests/nfs_fixture.c:1200-1242 | from any such state a teardown releases the four resources, the host programs and the root path, each once if held, and restores the invariant; nothing at all is left exactly if there were at most eight scratch mounts |
| Fixture.EveryRunIsBalanced | kunit/xfstests/nfs_fixture.c:1200-1311 | over every run with any faults: references outstanding mean all four resources and one root held, none mean none of these and no host programs; every release takes what is held, the stack in reverse order; each mount uses the options set since the last teardown or else the default |
| Fixture.TheCallsAddUp | kunit/xfstests/nfs_fixture.c:1269-1311 | in every run the references are the gets that answered 0 less the puts that found one; options, host programs and scratch mounts are what the calls since the latest teardown made them |
| Fixture.FewerPutsKeepTheStack | kunit/xfstests/nfs_fixture.c:1290-1311 | from n references, further calls with fewer than n puts among them release none of the four resources |
| Fixture.BringUpSucceedsIff | kunit/xfstests/nfs_fixture.c:946-1037 | a bring-up succeeds exactly if every call answers 0, or EEXIST for a directory, and else gives the first other answer |
| Fixture.ClipFits | kunit/xfstests/nfs_fixture.c:669-672 | the options kept are the longest part that fits the buffer |
| Fixture.AlwaysReleasedIff | kunit/xfstests/nfs_fixture.c:1279-1311 | nothing whatever is held at any moment without references exactly if no last put of the run comes with more than eight scratch mounts |
| Fixture.MountsLeftBehind | kunit/xfstests/nfs_fixture.c:1269-1311 | the run of one get, n scratch mounts and a put leaves all but eight of them, so one of nine |
| Fixture.RootDropsIff | kunit/xfstests/nfs_fixture.c:1237-1241 | a run drops the root path exactly if some put of it gives back the last reference |
| Fixture.StrictOrderIffRootNeverDropped | kunit/xfstests/nfs_fixture.c:1213-1242 | counting the root path as the top of the stack, releases are in strictly reversed order exactly in runs in which no put gives back the last reference |
| Fixture.GetThenPutIsNotStrict | kunit/xfstests/nfs_fixture.c:1290-1311 | the concrete run get, put is not strictly reversed |
| Credentials.Task.SwitchCreds | kunit/xfstests/nfs_fixture.c:464-481 | EBUSY under an override, ENOMEM without memory, else one unprivileged override installed |
| Credentials.Task.Seteuid | kunit/xfstests/nfs_fixture.c:493-525 | the same for setresuid's effective id; a refusal by the security module leaves everything as it was |
| Credentials.Task.RestoreCreds | kunit/xfstests/nfs_fixture.c:483-491 | the override goes and its predecessor is current again; nothing without one |
| Credentials.Task.Access | kunit/xfstests/nfs_fixture.c:540-569 | answers what the permission check answers for the credential of `RealIdentity`, and leaves no reference behind, inside an override too |
| Credentials.ChecksWithTheRealIds | kunit/xfstests/nfs_fixture.c:549-554 | field by field, that credential: the real ids as filesystem ids, what is permitted for a real root and nothing for anyone else, the rest unchanged |
| Credentials.SeteuidDoesNotChangeTheCheck | kunit/xfstests/nfs_fixture.c:527-536 | a seteuid in between moves the effective and filesystem user id only and changes nothing of what is checked with |
| Credentials.SwitchedIdsAreAllAlike | kunit/xfstests/nfs_fixture.c:473-477 | a switched task has one user id, one group id and no capability, and is checked as just that |
| Credentials.InstalledRunsUntilReverted | kunit/xfstests/nfs_fixture.c:478-490 | the task runs under the edited credential until restoring, which brings back the kernel as it was |
| Credentials.MisuseIsNoticed | kunit/xfstests/nfs_fixture.c:527-536 | using a credential that is gone or freeing the current one sets the flag that no run ever sets |
| Credentials.RunKeepsInv | kunit/xfstests/nfs_fixture.c:461-569 | every sequence of calls keeps the relation of the kernel's counts to the run's start |
| Credentials.EveryRunIsBalanced | kunit/xfstests/nfs_fixture.c:461-569 | under both disciplines no credential is freed while current or put too often, at most one override is installed, and whenever none is the kernel's credentials and counts are those of the start |
| Credentials.EarlyPutNeedsCountedOverrides | kunit/xfstests/nfs_fixture.c:527-569 | dropping the new credential's reference while it is current is right exactly on kernels that count the override; dropping it after the revert always is |
| AllocSize.Probe | kunit/xfstests/generic/436.c:65-69 | truncating, writing one byte and seeking answers 0 exactly if the byte is in the first unit |
| AllocSize.Double | kunit/xfstests/generic/436.c:65-71 | doubling ends at the least power of two that reaches the unit or the block size |
| AllocSize.Search | kunit/xfstests/generic/436.c:57-84 | the whole search terminates and answers a closed form of unit and block size, for all of them |
| AllocSize.AnswerIsExactIff | kunit/xfstests/generic/436.c:57-84 | for every unit and every block size, when the answer is the unit |
| AllocSize.AnswerIsWithinOne | kunit/xfstests/generic/539.c:42-75 | if doubling met the unit below the block size the answer is within 1, and exact exactly for 2, 3 and larger units of remainder 0 or 1 modulo 4 |
| AllocSize.AnswerIsWhereDoublingStopped | kunit/xfstests/generic/539.c:48-60 | otherwise, for block sizes above 2, the answer is the power of two at which doubling stopped |
| AllocSize.AnswerOnPowersOfTwo | kunit/xfstests/generic/539.c:42-75 | on powers of two the answer is the smaller of unit and block size, except 3 for 4 |
| AllocSize.AnswerIgnoresLargeUnits | kunit/xfstests/generic/436.c:64-71 | for block sizes above 2, a unit not below the block size does not influence the answer, which is the block size rounded up to a power of two |
| SparseCopy.CopyExtent | kunit/xfstests/generic/286.c:79-92 | an extent is copied completely and exactly in chunks of any size |
| SparseCopy.CopySparse | kunit/xfstests/generic/286.c:66-95 | for every layout the walk ends, `islands` is the number of maximal data runs, exactly the data is written, and the copy equals the source |
| SparseCopy.SeeksAreLeast | kunit/xfstests/generic/286.c:68-76 | the two seeks answer the least offsets from a position, and nothing where there is none |
| SparseCopy.RunsSkipHole | kunit/xfstests/generic/286.c:68-75 | no run starts in a hole |
| SparseCopy.RunsCountIsland | kunit/xfstests/generic/286.c:75-77 | an extent between holes is one run |
| Readdir.Iter.Actor | kunit/xfstests/generic/257.c:36-64 | refuses exactly when the batch is full and then consumes nothing; counts duplicates, aliens and byte-sized marks |
| Readdir.IterateDir | kunit/xfstests/generic/257.c:97-99 | stops at the batch or the end, having learnt exactly what the entries passed say |
| Readdir.Seek | kunit/xfstests/generic/257.c:93-96 | a cookie resumes at the one entry it belongs to |
| Readdir.Enumerate | kunit/xfstests/generic/257.c:79-147 | succeeds exactly if every entry is listed once with nothing else but dots and ceil(n/b) is below the bound on rounds; then there were exactly that many rounds before the empty one |
| Readdir.EndingDecides | kunit/xfstests/generic/257.c:102-113 | each way the rounds can end decides the verdict |
| Readdir.TheFilesAreAnExactListing | kunit/xfstests/generic/257.c:127-130 | e0 to e(n-1) in any order with dots anywhere are such a listing |
| Readdir.EntryNamesParse | kunit/xfstests/generic/257.c:50-57 | the number printed into a name is the number read back |
| Readdir.IndexOfIff | kunit/xfstests/generic/257.c:50-57 | the names that count as entry i, exactly |
| Decimal.ParseIntPrinted | kunit/xfstests/generic/257.c:50-54 | kstrtoint() undoes printing for every 32-bit number |
| Decimal.PrintIsInjective | kunit/xfstests/generic/001.c:75-84 | distinct numbers print differently |
| Decimal.PrintIsTheNumeral | kunit/xfstests/generic/257.c:127-128 | a number is printed as the digits worth it in their places, without zeros before |
| Decimal.ParseIsPlaceValue | kunit/xfstests/generic/257.c:50-54 | exactly the numerals are read, for what their digits are worth |
| Decimal.ParseIntOf | kunit/xfstests/generic/257.c:50-54 | kstrtoint() reads a sign or none, digits, and a newline or none, if the number fits 32 bits |
| Decimal.ParseIntReads | kunit/xfstests/generic/257.c:50-54 | and it reads nothing else |
| RotXor.FoldIsSumOfTurns | kunit/xfstests/generic/339.c:48-56 | a rotate-and-add loop is the sum of the words, each rotated by its distance from the end |
| RotXor.FoldIsLinear | kunit/xfstests/generic/339.c:48-56 | it is linear on sequences of one length |
| RotXor.FoldIgnoresSwap | kunit/xfstests/generic/339.c:48-56 | two words a multiple of the period apart may change places |
| DirHash.HashName | kunit/xfstests/generic/339.c:48-56 | the loop over four-byte chunks computes the fold |
| DirHash.PackPlaces | kunit/xfstests/generic/339.c:52-54 | as a number each byte goes in whole, seven bits above the one behind it |
| DirHash.PackIsXorOfPlaces | kunit/xfstests/generic/339.c:52-54 | a chunk is the exclusive or of its four bytes in their places |
| DirHash.Rol28Places | kunit/xfstests/generic/339.c:43-46 | rotating by 28 brings the lowest four bits to the top and moves the others down by four |
| DirHash.HashIsXorOfRotations | kunit/xfstests/generic/339.c:48-56 | the hash is the xor of the packed chunks, each turned once per chunk behind it |
| DirHash.TurnIsRotation | kunit/xfstests/generic/339.c:43-46 | d turns by 28 bits are one rotation by 28 * d modulo 32 |
| DirHash.BitsAreModulo32 | kunit/xfstests/generic/339.c:43-46 | that rotation distance in closed form |
| DirHash.HashIsLinear | kunit/xfstests/generic/339.c:48-56 | on names of one length the hash of the xor is the xor of the hashes |
| DirHash.TrailingBytesAreIgnored | kunit/xfstests/generic/339.c:52 | the last len mod 4 bytes do not count |
| DirHash.SwappingChunksEightApartKeepsTheHash | kunit/xfstests/generic/339.c:52-54 | chunks a multiple of eight apart may be exchanged |
| DirHash.HashOneMoreChunk | kunit/xfstests/generic/339.c:75-81 | hashing four more bytes is one more step on the shorter name's hash |
| DirHash.Random.NonZero | kunit/xfstests/generic/339.c:58-65 | draws the next byte of the stream that is not zero, and no more than that |
| DirHash.GenName | kunit/xfstests/generic/339.c:67-88 | returns exactly the name steered from the first 248 non-zero random bytes, taken 248 at a time, that give a name without dot or slash and a steering word other than 0; and that name, terminated |
| DirHash.FirstGoodIs | kunit/xfstests/generic/339.c:71-88 | there is a name exactly if some part of 248 draws is good, and it is made of the first that is |
| DirHash.NonZerosKeep | kunit/xfstests/generic/339.c:58-65 | the draws are the stream without its zero bytes, in order |
| DirHash.AcceptedHashesEndInOnes | kunit/xfstests/generic/339.c:75-82 | every accepted buffer's hash has its low 29 bits set |
| DirHash.AcceptedNamesCollideIff | kunit/xfstests/generic/339.c:75-82 | two accepted buffers have one hash exactly if bits 1 to 3 of their prefixes' hashes agree |
| DirHash.AcceptedNamesNeedNotCollide | kunit/xfstests/generic/339.c:75-88 | two accepted buffers with different hashes |
| DirHash.HashOfTheMadeName | kunit/xfstests/generic/339.c:83-84 | as a C string the name hashes as steered unless a computed byte is zero, and then as its random part |
| Stream.FillChunk | kunit/xfstests/generic/001.c:92-103 | a chunk is the next bytes of the stream, and the generator's state after it |
| Stream.QuadIsTheWord | kunit/xfstests/generic/001.c:98-101 | the four bytes drawn from a word are the word, lowest first |
| Stream.WriteFile | kunit/xfstests/generic/001.c:105-133 | writing in chunks of whole words writes the stream |
| Stream.CopyContent | kunit/xfstests/generic/001.c:158-163 | copying in chunks of any size keeps the content |
| Stream.VerifyContent | kunit/xfstests/generic/001.c:173-217 | accepts a file exactly if it is the first `bytes` bytes of the stream, neither shorter nor longer |
| Stream.ChunksJoin | kunit/xfstests/generic/001.c:97-102 | a chunk of whole words and the stream from there on are the stream |
| Stream.SplitIsSafeIff | kunit/xfstests/generic/001.c:97-102 | splitting is harmless for every generator exactly if the first part has whole words or the second is empty |
| CopyChain.PathIsInjective | kunit/xfstests/generic/001.c:75-84 | names without a dot give different (name, link) pairs different paths |
| CopyChain.OriginalsHaveShape | kunit/xfstests/generic/001.c:425-427 | the files as set up satisfy the engine's invariant |
| CopyChain.Engine.CopyOne | kunit/xfstests/generic/001.c:227-235 | the source is there and the target is not, so the copy succeeds and the chain is one longer |
| CopyChain.Engine.CopyPicks | kunit/xfstests/generic/001.c:227-235 | the picks of an iteration give each chain as many copies, numbered from 0, as it was picked |
| CopyChain.Engine.MakeLast | kunit/xfstests/generic/001.c:245-249 | the newest copy becomes f.last, over an older one |
| CopyChain.Engine.CloseOne | kunit/xfstests/generic/001.c:238-254 | nothing fails, and of a chain only f.last is left |
| CopyChain.Engine.Chain | kunit/xfstests/generic/001.c:220-255 | for any picks no step fails, and f.last exists afterwards exactly if it did or f was picked |
| CopyChain.Engine.Check | kunit/xfstests/generic/001.c:258-272 | passes exactly if every original, and every f.last there is, holds what it should |
| CopyChain.Engine.RunTest | kunit/xfstests/generic/001.c:417-435 | any number of iterations passes every check; what is left are the originals and an equal f.last for every entry ever picked |
| CopyChain.RenameToLast | kunit/xfstests/generic/001.c:245-249 | the rename finds its source and keeps the invariant |
| Shadow.ShadowFile.WriteOp | kunit/xfstests/generic/075.c:91-106 | the shadow becomes the contents with data written and the gap zeroed |
| Shadow.ShadowFile.TruncateOp | kunit/xfstests/generic/075.c:107-114 | the contents cut or extended with zeros, whatever stale bytes lie behind |
| Shadow.ShadowFile.PunchOp | kunit/xfstests/generic/075.c:115-122 | zeroes within the size only |
| Shadow.ShadowFile.VerifyRange | kunit/xfstests/generic/075.c:41-63 | passes exactly if the file has the range's bytes that lie within the size |
| Shadow.ShadowFile.FinalCheck | kunit/xfstests/generic/075.c:131-142 | size check and full verify pass exactly for the shadow's contents |
| Shadow.ShadowFile.Round | kunit/xfstests/generic/075.c:80-128 | each round applies the operation drawn, within the array's bounds |
| Shadow.RangeDrawn | kunit/xfstests/generic/075.c:82-88 | the range of an operation: where it starts, and that it is as long as drawn unless that would pass the maximum size |
| Shadow.OperationDrawn | kunit/xfstests/generic/075.c:90-127 | which last digit of the first word draws which operation, on which range, with which bytes |
| Shadow.PatternsDiffer | kunit/xfstests/generic/075.c:92-93 | two operations write different bytes at a place exactly if their numbers differ modulo 256, and one operation's bytes repeat only every 256 places |
| Shadow.ApplyBytewise | kunit/xfstests/generic/075.c:91-122 | the operations byte by byte |
| Shadow.RunTest | kunit/xfstests/generic/075.c:65-144 | for any rounds and any file: passes exactly if every read agreed with the replay of the operations before it and the final file is the replay |
| Shadow.ReadsAgreeMeans | kunit/xfstests/generic/075.c:123-126 | agreement along the run is agreement at every read |
| TreeCopy.FilesDifferEverywhereIff | kunit/xfstests/generic/100.c:77-80 | two seeds give the same byte at one offset, and then at all, exactly if they agree modulo 256 |
| TreeCopy.NextByte | kunit/xfstests/generic/100.c:77-80 | each byte of a file is one more than the byte before it, modulo 256 |
| TreeCopy.NextFilesByte | kunit/xfstests/generic/100.c:77-80 | and 31 more than the byte at its place in the file before |
| TreeCopy.CountIsASumOfPowers | kunit/xfstests/generic/100.c:91-114 | a tree of depth k has F times the sum of D^i for i up to k files |
| TreeCopy.Walk.Build | kunit/xfstests/generic/100.c:91-114 | fails exactly if one of its calls does; else it makes exactly the tree for the seeds from the counter on and restores the path; it changes nothing outside, and what it leaves on a failure, in a subtree or in the middle of a file, is a stopped tree |
| TreeCopy.Walk.Copy | kunit/xfstests/generic/100.c:117-146 | the same for the copy: the same tree at the other place, with the same seeds, and both paths restored, or a stopped tree there |
| TreeCopy.Walk.VerifyDir | kunit/xfstests/generic/100.c:56-74 | passes exactly if the counts of names that look right are right and no other name is there |
| TreeCopy.Walk.VerifyFile | kunit/xfstests/generic/100.c:185-202 | passes exactly if the first `size` bytes are there and those of the seed |
| TreeCopy.Walk.Verify | kunit/xfstests/generic/100.c:176-207 | passes exactly if the tree, its files cut to `size` bytes, is right and its names have one digit; the path is restored and the seed counter advanced as by building |
| TreeCopy.LevelDecides | kunit/xfstests/generic/100.c:148-202 | a level's three checks together say that the level is right, both directions |
| TreeCopy.PassedIsReadable | kunit/xfstests/generic/100.c:66-74 | with eleven files or directories per level no tree passes |
| TreeCopy.OnlyLongFilesAreMissed | kunit/xfstests/generic/100.c:190-199 | a tree is right exactly if it passes cut and no file is too long |
| TreeCopy.TreeFrame | kunit/xfstests/generic/100.c:91-114 | a tree depends only on the nodes in it |
| TreeCopy.StoppedIsRemovable | kunit/xfstests/generic/100.c:231-238 | every tree, finished or stopped after any call of building or copying, can be removed |
| TreeCopy.Walk.Rmtree | kunit/xfstests/generic/100.c:209-227 | removes a whole or partial tree completely and nothing else, and restores the path |
| TreeCopy.Walk.RunTest | kunit/xfstests/generic/100.c:231-265 | whichever calls of making, building and copying fail, the test passes exactly if none does and the names have one digit, and the cleanup leaves everything as it was |
| NameTable.Checker.CheckCreate | kunit/xfstests/generic/007.c:63-86 | accepts exactly the answers that a map with these names can give, and follows it |
| NameTable.Checker.CheckRemove | kunit/xfstests/generic/007.c:89-106 | the same for removing |
| NameTable.Checker.CheckLookup | kunit/xfstests/generic/007.c:109-129 | the same for looking up, inode number included |
| NameTable.RunTest | kunit/xfstests/generic/007.c:131-164 | accepts a transcript exactly if it is a trace of a map from names to inode numbers |
| NameTable.AnswersInATrace | kunit/xfstests/generic/007.c:63-129 | in an accepted transcript each answer is that of a name made and not removed since, lookups giving the inode number of the create, or else that of a name that is not there |
| NameTable.NamesAreIndependent | kunit/xfstests/generic/007.c:40-43 | and so exactly if the transactions on each single name are one |
| XattrStorm.AttrsAreTheSets | kunit/xfstests/generic/070.c:82-112 | the map from (file, name) to values, changed by each set and remove, has an attribute exactly if it was set since its last removal, with the value of that count modulo 65536 |
| XattrStorm.AttrsAreTheLatestSets | kunit/xfstests/generic/070.c:82-112 | an attribute is there exactly if its latest set or removal was a set, with the value written then |
| XattrStorm.StaleValuesShow | kunit/xfstests/generic/070.c:84-87 | two sets fewer than 65536 operations apart, without a removal between, write different values |
| XattrStorm.Checker.Check | kunit/xfstests/generic/070.c:79-137 | one operation's demands, with the generations modulo 65536; a list counts the generations that are not zero |
| XattrStorm.CheckedWhenClean | kunit/xfstests/generic/070.c:82-112 | where no wrapped generation is looked at the demands are exactly what files with the attributes of that map can answer; where one is, they refuse every such answer |
| XattrStorm.ShortRunsAreClean | kunit/xfstests/generic/070.c:28 | nothing wraps below 65536 operations |
| XattrStorm.AcceptedIff | kunit/xfstests/generic/070.c:75-138 | on clean transcripts acceptance is being a trace of that map, and on traces acceptance is being clean |
| XattrStorm.RunTest | kunit/xfstests/generic/070.c:75-138 | the loop accepts exactly the traces of a map from (file, name) to values on clean transcripts, so below 65536 operations, and of all traces exactly the clean ones |
| Lcov.OwnerMeans | scripts/kunit/coverage-diff.py:42-45 | a line belongs to a file exactly if an SF line for it in scope comes before, with no SF or end between |
| Lcov.EntriesMean | scripts/kunit/coverage-diff.py:46-51 | a line number is recorded exactly if some DA line in some record for the file mentions it, and executed exactly if some such count is positive |
| Lcov.ParseLcov | scripts/kunit/coverage-diff.py:37-51 | the state machine builds the dictionary of just these, and stops exactly where a DA line in scope does not parse and its count is needed |
| Lcov.IntOfPrinted | scripts/kunit/coverage-diff.py:49 | every number is read back from its numeral, plain or with a sign |
| Lcov.IntOfReadsIff | scripts/kunit/coverage-diff.py:49 | only an optional sign and digits are read |
| Lcov.DataLine | scripts/kunit/coverage-diff.py:47 | the two fields of a DA line of any length, up to the first and the second comma |
| Lcov.PositiveIff | scripts/kunit/coverage-diff.py:49 | only a count above 0 marks a line as executed |
| Lcov.LineKinds | scripts/kunit/coverage-diff.py:42-50 | which lines are taken for what |
| Lcov.KeyFollowsTheFirstLinux | scripts/kunit/coverage-diff.py:43 | the file of a path is what follows the first "/linux/", or the path without one |
| Lcov.SummaryCounts | scripts/kunit/coverage-diff.py:52 | the two numbers for a file are how many of its line numbers some DA line counts as executed, and how many any mentions; files without a line do not appear |
| Lcov.TabulateHas | scripts/kunit/coverage-diff.py:48-49 | what the dictionary says of a file and a line number |
| Lcov.HitAtMostTotal | scripts/kunit/coverage-diff.py:52 | no file has more executed than instrumented lines |
| Lcov.ConcatenationMerges | scripts/kunit/coverage-diff.py:33-35 | reading complete records one tracefile after the other is merging what they say |
| Lcov.ConcatenationStops | scripts/kunit/coverage-diff.py:47-49 | when reading two one after the other stops, the hits of the first excusing counts in the second |
| Lcov.RecordsMerge | scripts/kunit/coverage-diff.py:33-35 | a file's lines are the union over its records |
| Lcov.OrderAndRepetitionDoNotMatter | scripts/kunit/coverage-diff.py:33-35 | what is read depends only on which records there are |
| Lcov.ReadInEveryOrderIff | scripts/kunit/coverage-diff.py:46-49 | complete records are read to the end in every order and repetition exactly if each of them is on its own |
| Lcov.OrderMatters | scripts/kunit/coverage-diff.py:49 | for any file, line and count: the text with an execution before a count that is no number is read, the other way round the script stops |
| Lcov.OrderMattersOnce | scripts/kunit/coverage-diff.py:49 | the same for two given records as text |
| LcovFilter.Filter | scripts/coverage-filter.py:33-52 | the output is the kept records rewritten, in order, and kept plus dropped is the number of complete records |
| LcovFilter.LinesWritten | scripts/coverage-filter.py:40-48 | the output has exactly the lines of the kept records, test lines renamed, SF lines pointing into the tree, all others as they were |
| LcovFilter.TestLinesCarryTheName | scripts/coverage-filter.py:44-45 | every test line of the output carries the given name |
| LcovFilter.WrittenPathReadsBackIff | scripts/coverage-filter.py:41-47 | the path written back is read as the same file exactly for trees whose path, with a slash, has its first "/linux/" at the end |
| LcovFilter.OneSourceIsConsistent | scripts/coverage-filter.py:40-42 | a record with one SF line, in a tree, satisfies what the theorems below ask of records |
| LcovFilter.FilteredFileReduces | scripts/coverage-filter.py:36-52 | what a filtered tracefile says is what the original says of tracked files, and it stops the parser only if the original does |
| LcovFilter.FilteringCommutesWithReading | scripts/coverage-filter.py:36-52 | parsing the filtered file is parsing the original and restricting the result |
| LcovFilter.FilteringTwiceIsFilteringOnce | scripts/coverage-filter.py:36-52 | a filtered file is kept whole and unchanged by filtering it again |

## Left out

- The kernel: page cache, writeback, NFS client and server, RPC, dcache. Only its answers appear, as parameters or small contracts.
- The ports that are one fixed scenario, the ones that only launch the external fsx program, and generic/478 with its table of lock outcomes: finite, or rules that belong to the kernel.
- xfstests-port-status.py, and in coverage-diff.py percentages, the noise floor and the Markdown output.
- Fixture: an unmount counts as done once attempted (no lazy detach, no retry while busy), a server that half starts counts as not started, xfs_remount_client and xfs_run_prog are not modelled, and locks are not needed since calls are taken one at a time.
- Credentials: which files a permission check concerns; inode_permission() is a function parameter of Access.
- MovingDirectory: the kernel's answer to a failing create is any error from a given set; the loop's error message is not modelled.
- Handshake: completions are atomic counters and memory is sequentially consistent; reading the file back is represented by the file's contents.
- SparseCopy: the comparison of the island count with the number of islands this port writes; the count is proved for every layout instead.
- Readdir: the second pass, which repeats the first, and a batch size of 0.
- DirHash: the directory walk of many_long_binary_names_survive_a_mount_cycle; random bytes are a finite stream, so GenName can run dry.
- Stream: the generator is any function from a state to a 32-bit word and a next state, the seed any state.
- CopyChain: the directories the files are in, removal of the tree at the end, the config table's particular entries, and the length of the path buffers.
- TreeCopy: the eight bytes given to a path component, which limit numbers to five digits; the listing delivers no dot entries; verifying stops at the first failure of a subtree, where the port may go on after some failures without changing the verdict; opens and reads of the comparison fail only for what is missing or short; removals do not fail, and rmdir is not retried.
- NameTable.RunTest: the share of creates and removes in each third of the run; any sequence of operations is covered.
- XattrStorm.RunTest: as above; the probe for support of user attributes comes before the run modelled.
- Shadow: how a file changes; what each read observes is a parameter.
- Lcov.ParseLcov: int() is an optional sign and ASCII digits, without blanks or underscores; lines are given without their newline.
- LcovFilter.Filter: a last line without a newline, and git's list of files, which is a parameter.
