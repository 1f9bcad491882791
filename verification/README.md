# Verification of parts of `base/`

A Dafny 4.11 model of eight components of Chromium's `base/` library, with proofs of what
each of them promises. `dafny verify dfyconfig.toml` checks everything.

| file | models | main results |
|---|---|---|
| `FileDescriptorShuffle.dfy` | `base/file_descriptor_shuffle.{h,cc}` | the sequence of `dup`, `dup2` and `close` is certain to be a parallel move exactly when no identity arc is followed by an arc from its descriptor, one of them marked `close`, no remembered temporary is taken before a dest that `Duplicate` might answer with, and at most sixteen arcs need a temporary |
| `FileTree.dfy`, `EnumeratorCursor.dfy`, `DirectoryWalk.dfy`, `FileEnumerator.dfy`, `FileDelete.dfy`, `CreateDirectory.dfy` | the traversal, deletion and creation of directories in `base/file_util_posix.cc` | the enumerator's calls are a recursive walk of the tree, which returns each entry once, siblings together, and the entries of a directory before those of any directory below it; `Delete` removes exactly the subtree though it unlinks files in mid-traversal; `CreateDirectory` makes exactly the missing members of its chain |
| `FileCopy.dfy` | the partial-I/O loops of the same file | what was read is what is written, whatever the calls move at a time |
| `AtomicOps.dfy`, `AtomicRefCount.dfy`, `AtomicSequenceNum.dfy` | `base/atomicops_internals_arm_gcc.h` and what is built on it | every interleaving of the retry loops is linearizable; the reference count is the number of references held and exactly one decrement returns false; sequence numbers are unique |
| `Switches.dfy`, `CommandLine.dfy` | `base/command_line.cc` on POSIX | the switch map agrees with `argv`; parsing is a stable partition, and idempotent exactly when no switch is unstable |
| `ArgvQuoting.dfy` | the quoting in `base/command_line.cc` on Windows | splitting a command line gives back the arguments it was made of, exactly when all of them survive |
| `FilePath.dfy` | `base/file_path.cc` on POSIX | `DirName` terminates; `GetComponents` and `Append` are inverse up to exact exceptions; the extension laws with their exact conditions |
| `Bits.dfy` | `base/bits.h` | both logarithms |

## How to read the models

* Code that changes things is modelled by classes and loops, each proved against a
  specification function or a closed condition. The results about those functions are lemmas.
* System calls are classes (`InjectionDelegate`, `FileSystem`, `Disk` and `Descriptor`) or steps
  of a state machine. Any call may fail; on a `reliable` object a call fails for a reason only, and
  "on success" and "must succeed" are stated separately.
* The atomic operations are modelled twice: as a state machine in which any threads take atomic
  steps in any order (`AtomicOps.Run`), and as the loops one thread runs on a word that the others
  may change whenever it is touched (`AtomicOps.SharedWord`). Both are tied to the same sequential
  meaning of the calls (`AtomicOps.Apply`).
* A number of properties one would expect are false of the code. They are stated as
  "if and only if", with the guard of the branch that fails as the condition:
  * the parallel move: `FileDescriptorShuffle.AlwaysHoldsSourcesIff` and `AlwaysAsIntendedIff` give
    the exact condition before the call, over all that `Duplicate` might answer. What goes wrong is
    that an identity arc `(d, d)` followed by an arc from `d`, one of them marked `close`, leaves `d`
    closed (`ClosingIdentityExample`); that a temporary that coincides with a later dest is closed at
    the end, as happens with `dup` when that dest is the lowest free descriptor
    (`LowestDescriptorExample`); and that a seventeenth temporary is left open
    (`SeventeenthTemporaryExample`);
  * breadth-first order: it is certain if and only if every path lies below the directory of every
    shallower one (`DirectoryWalk.BreadthFirstIff`, `DepthDropExample`);
  * the terminator `--` first among the arguments: if and only if nothing but switches comes before
    it (`CommandLine.TerminatorFirstIff`, `TerminatorSecondExample`);
  * `Append` of a component to `.` followed by separators replaces the `.`, and `.` appended to
    nothing is lost (`FilePath.AppendIsSnocIff`, `AppendExample`); hence the relative path that
    `AppendRelativePath` appends is not always all that is added (`RelativePathComponents`);
  * `BaseName` appended to `DirName` gives back only paths without needless separators, and not
    `./x` (`FilePath.DirNameAppendBaseNameIff`);
  * `RemoveExtension` and `Extension` do not split a path that has an extension and a trailing
    separator, and `InsertBeforeExtension` does not keep such a path in one piece
    (`FilePath.ExtensionSplitIff`, `ExtensionSplitExample`, `InsertBeforeExtensionIff`);
  * a switch with an empty value loses its `=` when it is parsed, and what is left may change
    again when it is parsed again (`CommandLine.ParseTwiceIff`, `ParseTwiceExample`);
  * a name with `=` breaks the agreement of the map with `argv`
    (`CommandLine.CommandLine.AppendSwitchNative`), a prefix makes a copied switch be entered under another name
    (`CommandLine.CopiedIsFoundIff`), and switches from before `InitFromArgv` stay in the map
    (`CommandLine.CommandLine.InitFromArgv`); a command line with arguments cannot be appended to
    itself, for the loop has no end (`CommandLine.SelfAppendNeverEnds`);
  * an empty argument, one with a tab and nothing that is quoted for, and a switch whose name has
    a blank or a quote do not survive the command line (`ArgvQuoting.SplitUndoesTailIff`, `TabExample`);
  * `CopyFile` of a file onto itself empties it and returns true (`FileCopy.CopyFile`);
  * a decrement returns false whenever the references left are a multiple of 2^32
    (`AtomicRefCount.DecrementReturnsFalseIff`).

## Where the code and its documentation differ

The models follow the code.

* `base/file_util.h:525-528` calls the enumeration breadth-first, and explains that all files of a
  directory are returned before those of its sub-directories. The latter is what the code does
  (`FileEnumerator.Enumerate`). It keeps the directories on a stack
  (`base/file_util_posix.cc:783-785`), so it goes down the last sub-directory first, and in general
  the depths do not ascend (`DirectoryWalk.BreadthFirstIff`).
* `base/command_line.h:93` calls switch names case-insensitive; on POSIX they are not
  (`base/command_line.cc:87-93`, `CommandLine.CaseExample`).
* `base/command_line.h:156` puts the terminator `--` before all arguments. An argument that is no
  switch and comes before the terminator stays before it (`CommandLine.TerminatorFirstIff`).
* `base/file_descriptor_shuffle.h:35-37` has `Duplicate` answer with a fresh element; the delegate
  for the process's own table answers with what `dup` picks.

## Model

| member | source | states |
|---|---|---|
| FileDescriptorShuffle.InjectionDelegate.Duplicate | base/file_descriptor_shuffle.h:35-37 | on success a descriptor that was not open, and is not reserved, refers to what fd refers to; on failure nothing changes |
| FileDescriptorShuffle.InjectionDelegate.Move | base/file_descriptor_shuffle.h:38-40 | dest refers to what src refers to, and src stays open |
| FileDescriptorShuffle.InjectionDelegate.Close | base/file_descriptor_shuffle.h:41-42 | the descriptor, and no other, is closed |
| FileDescriptorShuffle.RedirectLaterArcs | base/file_descriptor_shuffle.cc:35-59 | the inner loop leaves the arcs as the closed form AfterTurn says: later readers of the dest read one duplicate and ask for no close, the first arc that relieves this one takes over or cancels its close |
| FileDescriptorShuffle.PerformArc | base/file_descriptor_shuffle.cc:24-68 | one turn of the outer loop makes at most one duplicate, one move and one close, or stops after a failed call having changed nothing else |
| FileDescriptorShuffle.CloseTemporaries | base/file_descriptor_shuffle.cc:70-71 | exactly the recorded temporaries are closed |
| FileDescriptorShuffle.Remember | base/file_descriptor_shuffle.cc:40-45 | the seventeenth and later temporaries are not recorded |
| FileDescriptorShuffle.TurnKeepsInv | base/file_descriptor_shuffle.cc:24-68 | a turn keeps the invariant: pending arcs read what their source held on entry, done dests hold theirs, only what is due was closed and never while an arc still reads it, requests to close are done or still carried by a pending arc, and without risk no remembered temporary is a dest |
| FileDescriptorShuffle.TakesOneIff | base/file_descriptor_shuffle.cc:35-46 | while no temporary is a dest, a turn takes a temporary exactly when a later arc reads the dest of its arc |
| FileDescriptorShuffle.SafeTemporary | base/file_descriptor_shuffle.cc:36-46 | a temporary taken where there is no risk is no dest |
| FileDescriptorShuffle.ClosesOnlyWhatIsDue | base/file_descriptor_shuffle.cc:52-67 | when a turn closes its source, some arc asked for it, no dest is hit, and no later arc reads it |
| FileDescriptorShuffle.HandsOverRequest | base/file_descriptor_shuffle.cc:52-58 | a request to close a descriptor that no later arc overwrites is carried out now or handed to a later arc |
| FileDescriptorShuffle.InvGivesShuffled | base/file_descriptor_shuffle.cc:70-73 | after the last turn, closing the recorded temporaries gives the promised table |
| FileDescriptorShuffle.GivingUp | base/file_descriptor_shuffle.cc:38-39 | a run that gives up has closed only what is due, and what it has not assigned is unchanged |
| FileDescriptorShuffle.PossibleKeepsInv | base/file_descriptor_shuffle.cc:24-68 | whatever Duplicate answers, the invariant holds between turns |
| FileDescriptorShuffle.RunGivesResult | base/file_descriptor_shuffle.cc:16-74 | every run, as a function of what Duplicate answers, ends in the promised table |
| FileDescriptorShuffle.PerformInjectiveMultimapDestructive | base/file_descriptor_shuffle.cc:16-74 | for all arcs with distinct dests, open or closed, the whole table afterwards: every dest, every closed source, every temporary, and everything else unchanged; on success it is that of a run for some answers of Duplicate; with a reliable delegate it succeeds |
| FileDescriptorShuffle.PerformInjectiveMultimap | base/file_descriptor_shuffle.cc:76-80 | the same, and the caller's map is not touched |
| FileDescriptorShuffle.DestsHoldSourcesIff | base/file_descriptor_shuffle.cc:16-74 | of a run without risk: every dest holds what its source held on entry if there is no closing identity arc, and only then if at most sixteen arcs need a temporary |
| FileDescriptorShuffle.AsIntendedIff | base/file_descriptor_shuffle.cc:16-74 | of a run without risk: besides, the sources marked close are closed exactly when they are no dest and all else is unchanged, under two conditions each of which is exact when the other holds |
| FileDescriptorShuffle.AlwaysHoldsSourcesIff | base/file_descriptor_shuffle.cc:16-74 | before the call, all sources open: whatever Duplicate answers every dest will hold what its source holds, if and only if there is no closing identity arc and no remembered temporary is taken before a dest that Duplicate might answer with |
| FileDescriptorShuffle.AlwaysAsIntendedIff | base/file_descriptor_shuffle.cc:16-74 | the whole table is certain to be as intended, if and only if, besides, at most sixteen arcs need a temporary |
| FileDescriptorShuffle.SixteenTemporariesIff | base/file_descriptor_shuffle.cc:18-46 | with all sources open, every dest open or reserved and no closing identity, that is: if and only if at most 16 arcs need a temporary |
| FileDescriptorShuffle.NeverStuck | base/file_descriptor_shuffle.cc:24-68 | with all sources open every call of a turn can succeed, whichever free descriptor Duplicate answers with |
| FileDescriptorShuffle.RiskIsLost | base/file_descriptor_shuffle.cc:36-46 | where there is a risk, some answers of Duplicate lose a dest |
| FileDescriptorShuffle.ClosingIdentityIsLost | base/file_descriptor_shuffle.cc:52-67 | where there is a closing identity arc, some answers of Duplicate lose its dest |
| FileDescriptorShuffle.LeakHappens | base/file_descriptor_shuffle.cc:40-46 | where more than sixteen arcs need a temporary, some answers of Duplicate leave one open |
| FileDescriptorShuffle.TemporariesAvoidDests | base/file_descriptor_shuffle.cc:36-46 | without risk no remembered temporary is a dest, and more than sixteen are taken exactly when more than sixteen arcs need one |
| FileDescriptorShuffle.TemporaryOnDestIsLost | base/file_descriptor_shuffle.cc:70-71 | in any run, a dest that is no closing identity holds what its source held if and only if it is not a remembered temporary |
| FileDescriptorShuffle.ClosingIdentityExample | base/file_descriptor_shuffle.cc:55-67 | the run of (1,1), (1,2,close) ends with 1 closed |
| FileDescriptorShuffle.SingleArcExample | base/file_descriptor_shuffle.cc:16-74 | a single arc takes no temporary and reaches its dest, open or closed |
| FileDescriptorShuffle.SeventeenthTemporaryExample | base/file_descriptor_shuffle.cc:40-46 | a run of a chain of eighteen arcs gives every dest what its source held and leaves a new descriptor open |
| FileDescriptorShuffle.SixteenTemporariesExample | base/file_descriptor_shuffle.cc:40-71 | of a chain of seventeen arcs, which takes sixteen temporaries, every run leaves the table as intended |
| FileDescriptorShuffle.LowestDescriptorExample | base/file_descriptor_shuffle.cc:82-85 | the run of (1,2), (2,0) with 0 closed ends with 0 closed when dup answers 0 |
| FileTree.AncestorsAreDirectories | base/file_util_posix.cc:852-891 | what lies above a path of a tree is a directory |
| FileTree.EmptyDirectoryIsAlone | base/file_util_posix.cc:244-248 | nothing lies below a directory that rmdir removes |
| FileTree.FileSystem.Unlink | base/file_util_posix.cc:241 | removes one file or link, never a directory |
| FileTree.FileSystem.Rmdir | base/file_util_posix.cc:247 | removes one empty directory |
| FileTree.FileSystem.Mkdir | base/file_util_posix.cc:603-608 | makes a directory in an existing one; it may fail though the directory then exists |
| FileTree.FileSystem.ReadDirectory | base/file_util_posix.cc:852-891 | lists `.`, `..` and each child once, in any order |
| EnumeratorCursor.AfterReadToCome | base/file_util_posix.cc:791-809 | reading a directory changes nothing about which paths are still to be returned |
| EnumeratorCursor.AfterReadOk | base/file_util_posix.cc:791-809 | reading a directory keeps the stack's directories unrelated, none of them at or above the one being returned |
| EnumeratorCursor.AfterDrop | base/file_util_posix.cc:788-789 | a directory that cannot be read is dropped; nothing is lost if it is none |
| EnumeratorCursor.ReturnOne | base/file_util_posix.cc:812-813 | returning an entry takes exactly that path from those to be returned, and none of those left lies above it |
| EnumeratorCursor.UnreadAfterRead | base/file_util_posix.cc:779-810 | each directory read leaves fewer directories to be read |
| EnumeratorCursor.NoneAbove | base/file_util_posix.cc:779-813 | no path still to be returned lies in a directory above the one being returned |
| FileTree.ListingExists | base/file_util_posix.cc:852-891 | every directory of a tree can be listed |
| DirectoryWalk.TopComesFirst | base/file_util_posix.cc:783-804 | what is on top of the stack is gone through to its end before what is below it |
| DirectoryWalk.WalkMembers | base/file_util_posix.cc:775-814 | a walk returns exactly what the mask selects below the directories on the stack |
| DirectoryWalk.WalkIsInside | base/file_util_posix.cc:775-814 | each path returned lies in a directory on the stack, or below one |
| DirectoryWalk.WalkInOrder | base/file_util_posix.cc:775-814 | a walk returns nothing twice, the entries of a directory together, and before those of any directory below it |
| DirectoryWalk.ParentsFirst | base/file_util_posix.cc:775-814 | so no path comes after one that lies below it |
| DirectoryWalk.AscendsWhenBelow | base/file_util.h:525-528 | walks are breadth-first where every path lies below the directory of every shallower one |
| DirectoryWalk.DepthCanDrop | base/file_util_posix.cc:783-804 | otherwise some order of listing puts a deeper path first |
| DirectoryWalk.BreadthFirstIff | base/file_util.h:525-528 | so every walk is breadth-first if and only if that is so |
| DirectoryWalk.DepthDropExample | base/file_util_posix.cc:783-804 | a tree of two directories, one with a file and one with a file further down, is a case |
| FileEnumerator.FileEnumerator.constructor | base/file_util_posix.cc:741-751 | exactly the paths below the root that the mask selects are to be returned, and in the order of the walk |
| FileEnumerator.FileEnumerator.ReadNextDirectory | base/file_util_posix.cc:783-809 | one turn of the outer loop: the top of the stack is popped, its sub-directories pushed, its selected entries listed |
| FileEnumerator.FileEnumerator.MoveOn | base/file_util_posix.cc:779-810 | one turn of the outer loop keeps what is to be returned, and its order, and leaves less to read |
| FileEnumerator.FileEnumerator.Next | base/file_util_posix.cc:775-814 | returns a path still to be returned, and never again it, one above it, or one in a directory above its own; none only when there are none, and then for good; on a reliable system no path is dropped, and the path is the next of the walk, however the directories left to read are listed |
| FileEnumerator.FileEnumerator.GetFindInfo | base/file_util_posix.cc:816-825 | tells name and kind of the path Next returned last, as long as it is there, and nothing before the first and after the last |
| FileEnumerator.AnswerSplits | base/file_util_posix.cc:775-814 | what was returned so far and what is to come make up the walk |
| FileEnumerator.Enumerate | base/file_util_posix.cc:775-814 | repeated calls of Next return the walk for some listings of the directories: exactly the selected paths, each once, the entries of a directory together and before those of any directory below it; files and directories as far as they were asked for |
| FileDelete.UnlinkKeepsCursor | base/file_util_posix.cc:233-242 | unlinking a file already returned changes nothing about what the traversal still returns |
| FileDelete.TopIsEmpty | base/file_util_posix.cc:244-248 | once only stacked directories are left, the top of the stack is empty |
| FileDelete.PoppedStack | base/file_util_posix.cc:244-247 | removing the top keeps the stack in order, the deepest last |
| FileDelete.DirectoryStacked | base/file_util_posix.cc:238-239 | a directory that is returned goes on the stack, and nothing still to be returned lies above it |
| FileDelete.FileUnlinked | base/file_util_posix.cc:240-241 | a file that is returned can be unlinked without the traversal noticing |
| FileDelete.StackOrUnlink | base/file_util_posix.cc:235-241 | one turn of the first loop leaves fewer paths below the directory that are neither stacked nor still to be returned |
| FileDelete.UnlinkFiles | base/file_util_posix.cc:227-242 | the traversal removes only what lies below the path, and on a reliable system leaves nothing but the directories it stacked |
| FileDelete.RemoveDirectories | base/file_util_posix.cc:244-249 | only empty directories are removed, and on success the path itself |
| FileDelete.SubtreeGone | base/file_util_posix.cc:212-250 | when the path is gone, exactly its subtree is |
| FileDelete.Delete | base/file_util_posix.cc:212-250 | never touches anything outside the subtree; on success exactly the subtree is gone; a missing path counts as deleted; without `recursive` a non-empty directory is left as it was; on a reliable system it succeeds |
| CreateDirectory.CollectParents | base/file_util_posix.cc:589-596 | terminates, with the chain of DirName from the path to its fixpoint |
| CreateDirectory.ChainLinks | base/file_util_posix.cc:589-596 | each member of the chain is the DirName of the one before, and the last is its own |
| CreateDirectory.FoundAtPlace | base/file_util_posix.cc:598-603 | once its DirName is there, the system looks for a path where DirName and the last name say |
| CreateDirectory.UpAgain | base/file_util_posix.cc:598-603 | the system finds by a name and then `..` what it finds without the two, and by `..` at the root the root |
| CreateDirectory.CanBeMade | base/file_util_posix.cc:603 | a missing member whose DirName is there can be made |
| CreateDirectory.EnsureDirectory | base/file_util_posix.cc:601-610 | one turn: the member is a directory afterwards, or something else is in its place |
| CreateDirectory.Obstructed | base/file_util_posix.cc:605-610 | a turn that fails on a reliable system was obstructed from the start |
| CreateDirectory.MoreDirectories | base/file_util_posix.cc:598-612 | what the system found is still found when directories were added |
| CreateDirectory.CreateDirectory | base/file_util_posix.cc:585-613 | on success the path is a directory, and exactly the missing members of its chain were made; on failure only members from the top down; on a reliable system it succeeds if and only if the path is not empty and no member is obstructed |
| FileCopy.Descriptor.Read | base/file_util_posix.cc:1065 | stores a part of what is ahead, at least one byte unless there is none or it fails |
| FileCopy.Descriptor.Write | base/file_util_posix.cc:1075-1078 | appends a part of what is offered, at least one byte unless it fails |
| FileCopy.WriteFileDescriptor | base/file_util_posix.cc:690-703 | appends all of the data and returns its size, or appends less and returns -1 |
| FileCopy.ReadFromFD | base/file_util_posix.cc:427-437 | the buffer holds the next bytes, and true means that all were read; on a reliable disk it is true if and only if there were that many |
| FileCopy.CopyBytes | base/file_util_posix.cc:1064-1085 | what the destination holds is at all times a prefix of what the source held, and all of it on success |
| FileCopy.CopyFile | base/file_util_posix.cc:1048-1093 | on success the destination holds what the source held, or nothing if they are the same file; otherwise a prefix; no other file changes |
| AtomicOps.OneCallMore | base/atomicops_internals_arm_gcc.h:31-74 | a call that returns what it returns alone extends a sequential history |
| AtomicOps.StepIsSilentOrReturns | base/atomicops_internals_arm_gcc.h:31-74 | an atomic step changes nothing, or is a whole call: it stores and returns what the call does alone |
| AtomicOps.StepKeepsOp | base/atomicops_internals_arm_gcc.h:31-74 | a retry goes on with the same call, and no other thread moves |
| AtomicOps.NextKeepsLinear | base/atomicops_internals_arm_gcc.h:31-74 | every event keeps the history sequential and the word its outcome |
| AtomicOps.Linearizable | base/atomicops_internals_arm_gcc.h:31-74 | in every interleaving, with any spurious failures, the calls that returned form a sequential history that ends in the word |
| AtomicOps.EachCallReturnsOnce | base/atomicops_internals_arm_gcc.h:31-74 | the calls a thread has made are those it returned from, in order, and the one it is in |
| AtomicOps.RoundMakesProgress | base/atomicops_internals_arm_gcc.h:31-74 | a thread that reads and then tries returns, unless another call returned in between or the try failed for no reason |
| AtomicOps.StepsGoDown | base/atomicops_internals_arm_gcc.h:31-74 | from anywhere in a call, a step that does not fail for no reason ends the call or brings its end nearer by one step, of at most three |
| AtomicOps.LockFree | base/atomicops_internals_arm_gcc.h:31-74 | whatever the others do, three such steps of a thread that is in a call are enough for some call to return |
| AtomicOps.EndsAlone | base/atomicops_internals_arm_gcc.h:31-74 | left alone anywhere in a call, a thread ends it: the word and the result are what the call means |
| AtomicOps.CallAlone | base/atomicops_internals_arm_gcc.h:31-74 | a call that is made and run alone returns within three steps, and stores and returns what it means |
| AtomicOps.SpuriousFailure | base/atomicops_internals_arm_gcc.h:31-74 | when the kernel fails for no reason, nothing is stored and the same call goes on |
| AtomicOps.WordHas32Bits | base/atomicops_internals_arm_gcc.h:61-74 | the sum wraps from 2^31 - 1 to -2^31 and back |
| AtomicOps.CompareAndSwapReturns | base/atomicops_internals_arm_gcc.h:31-44 | returns the expected value exactly when it stored, and otherwise a different value that the word held |
| AtomicOps.IncrementsAddUp | base/atomicops_internals_arm_gcc.h:60-74 | the word is the sum of the increments modulo 2^32, and each returns the sum up to itself |
| AtomicOps.ValuesAreConserved | base/atomicops_internals_arm_gcc.h:31-74 | the initial value and the values put in are, as multisets, the values taken out and the final value |
| AtomicOps.WrapAdd | base/atomicops_internals_arm_gcc.h:65 | wrapping in between does not change a sum |
| AtomicOps.SharedWord.BarrierAtomicIncrement | base/atomicops_internals_arm_gcc.h:60-74 | the loop ends once it is not disturbed, has then added exactly one call to the history, after calls of others only, and returns its result |
| AtomicOps.SharedWord.NoBarrierAtomicExchange | base/atomicops_internals_arm_gcc.h:46-53 | the same for an exchange |
| AtomicOps.SharedWord.NoBarrierCompareAndSwap | base/atomicops_internals_arm_gcc.h:31-44 | the same for a compare-and-swap, whether it stores or not |
| AtomicOps.SharedWord.LinuxKernelCmpxchg | base/atomicops_internals_arm_gcc.h:20-24 | stores only if the word is as expected, and may fail for no reason; undisturbed it stores exactly then |
| AtomicRefCount.NextKeepsCount | base/atomic_ref_count.h:22-39 | at every atomic step the word is the number of references held modulo 2^32 |
| AtomicRefCount.NextReturns | base/atomic_ref_count.h:31-39 | a call returns the number of references left, and one is left after an increment |
| AtomicRefCount.DecrementReturnsFalseIff | base/atomic_ref_count.h:31-39 | a decrement returns false if and only if the references left are a multiple of 2^32 |
| AtomicRefCount.CallAlone | base/atomic_ref_count.h:21-39 | an increment by a thread that holds a reference, or a decrement of references it holds, run alone, returns within three steps, changes that thread's references by its argument and returns the count |
| AtomicRefCount.LastReferences | base/atomic_ref_count.h:31-39 | a thread that alone gives up all references there are has its decrement return false |
| AtomicRefCount.HandsOn | base/atomic_ref_count.h:21-39 | references can be handed on without a call; the total stays |
| AtomicRefCount.NothingHappens | base/atomic_ref_count.h:22-39 | once no reference is held nothing happens any more |
| AtomicRefCount.OneDecrementReturnsFalse | base/atomic_ref_count.h:22-39 | in every interleaving whose references fit the word, a decrement returns false if and only if it is the one that gives up the last reference, and it is the last call |
| AtomicRefCount.OneMeansMine | base/atomic_ref_count.h:53-65 | for a thread that holds a reference, a count of one means that no other thread holds one or is in a call, and conversely |
| AtomicRefCount.AtomicRefCountIncN | base/atomic_ref_count.h:22-25 | one increment of the shared word |
| AtomicRefCount.AtomicRefCountDecN | base/atomic_ref_count.h:31-39 | one decrement of the shared word; false when it leaves zero |
| AtomicRefCount.AtomicRefCountIsOne | base/atomic_ref_count.h:59-65 | whether the word is one |
| AtomicSequenceNum.NumbersAreConsecutive | base/atomic_sequence_num.h:24-27 | the k-th call to return hands out the k-th number from the initial value |
| AtomicSequenceNum.NumbersDiffer | base/atomic_sequence_num.h:24-27 | two numbers are equal if and only if they are a multiple of 2^32 calls apart |
| AtomicSequenceNum.SequenceNumbersAreUnique | base/atomic_sequence_num.h:24-27 | in every interleaving the numbers handed out are consecutive, and distinct for fewer than 2^32 calls |
| AtomicSequenceNum.NumbersFromZero | base/atomic_sequence_num.h:24-34 | from zero the first 2^31 numbers are 0, 1, 2 and so on |
| AtomicSequenceNum.StaticAtomicSequenceNumber.GetNext | base/atomic_sequence_num.h:24-27 | one increment of the shared word; hands out the number of its place among the calls |
| Switches.CombineThenParse | base/command_line.cc:48-61 | a switch put together from a name without `=` and a value is parsed back into the value and `--` with the name, or just the name if it starts with a prefix; the name parsed never has an `=` |
| Switches.PrefixLengthText | base/command_line.cc:26-44 | two dashes are a prefix of two characters, one dash of one, a slash of one on Windows only; nothing else is a prefix |
| Switches.NormalForm | base/command_line.cc:304-321 | a parsed switch is kept as it is, except that the `=` of an empty value goes |
| Switches.NormalIsStable | base/command_line.cc:304-321 | the kept form is parsed alike and kept as it is |
| CommandLine.TrimWhitespace | base/string_util.cc:214-243 | the result is trimmed, and what is trimmed stays as it is |
| CommandLine.TrimCutsOut | base/string_util.cc:214-243 | the text is whitespace, the result and whitespace |
| CommandLine.WhitespaceCharacters | base/string_util.cc:155-163 | whitespace are the characters 9 to 13 and 32 |
| CommandLine.LastWins | base/command_line.cc:304-311 | a key is in the map if and only if a switch has it, with the value of the last one |
| CommandLine.KeysHaveNoEquals | base/command_line.cc:57-59 | no key has an `=` |
| CommandLine.SwitchesFromMerges | base/command_line.cc:311 | entering switches overwrites those of the same key and no other |
| CommandLine.LeftoversShow | base/command_line.cc:218-223 | entries from before make a difference if and only if one is not overwritten |
| CommandLine.PartitionKeepsCount | base/command_line.cc:64-84 | no argument is lost or added |
| CommandLine.SwitchesOfElements | base/command_line.cc:64-84 | the kept switches are those with a prefix that come before the terminator |
| CommandLine.RestHasNoSwitch | base/command_line.cc:64-84 | among the rest no switch comes before the terminator, which is there if it was |
| CommandLine.PartitionThenRest | base/command_line.cc:64-84 | arguments without switches of their own are left alone, in order |
| CommandLine.RestAfterTerminator | base/command_line.cc:71-81 | from the terminator on everything is left alone |
| CommandLine.ParseTwiceIff | base/command_line.cc:64-84 | parsing what was parsed gives the same argv, divider and map, if and only if no switch has an empty value whose `=` hides whitespace or the terminator |
| CommandLine.UnstableIff | base/command_line.cc:304-321 | that is what makes the kept form of a switch trimmable, or the terminator |
| CommandLine.LayoutIsParsed | base/command_line.h:156 | switches, the terminator and any arguments are parsed as just that, and GetArgs gives back the arguments, whatever they look like |
| CommandLine.ParsedArguments | base/command_line.cc:341-350 | GetArgs of a parsed vector drops exactly the terminator |
| CommandLine.ParseAgrees | base/command_line.cc:218-223 | what was parsed has its switches first |
| CommandLine.CopiesExactly | base/command_line.cc:332-339 | names without a prefix are copied under themselves, and nothing else changes |
| CommandLine.CopiedIsFoundIff | base/command_line.cc:304-339 | a copied switch is found, with its value, under the name it was copied by if and only if that name has no prefix or had that value before |
| CommandLine.SelfCopyKeepsMap | base/command_line.cc:332-339 | copying names without a prefix from itself leaves the map alone |
| CommandLine.SelfAppendNeverEnds | base/command_line.cc:64-84 | appending a command line with arguments to itself, there is always a next argument |
| CommandLine.SelfTurnsAppend | base/command_line.cc:64-84 | its turns append what they read, as from another command line |
| CommandLine.TerminatorFirstIff | base/command_line.h:156 | the terminator comes first among the arguments if and only if nothing but switches comes before it |
| CommandLine.TerminatorSecondExample | base/command_line.cc:64-84 | of `p a -- b` the argument `a` stays before the terminator |
| CommandLine.CaseExample | base/command_line.cc:87-93 | a switch `--Name` is not found as `name` |
| CommandLine.ParseTwiceExample | base/command_line.cc:304-321 | `--=` changes again when it is parsed again |
| CommandLine.WithOneMore | base/command_line.cc:67-83 | one turn of the loop: the argument becomes the last switch, or the last of the rest |
| CommandLine.CommandLine.NoProgram | base/command_line.cc:143-146 | an empty command line, whose map agrees |
| CommandLine.CommandLine.WithProgram | base/command_line.cc:148-152 | the program, trimmed; the map agrees |
| CommandLine.CommandLine.FromArgv | base/command_line.cc:160-164 | holds what Parse says; the map agrees |
| CommandLine.CommandLine.SetProgram | base/command_line.cc:261-263 | the first item, trimmed, and nothing else |
| CommandLine.CommandLine.AppendSwitchNative | base/command_line.cc:304-321 | `--name=value`, without the `--` if the name has a prefix and without the `=` if the value is empty, comes after the switches and before the arguments, and the map has the value under the name without prefix; it goes on agreeing if and only if the name has no `=` |
| CommandLine.CommandLine.AppendSwitch | base/command_line.cc:295-297 | the same with an empty value: `--name`, or the name if it has a prefix |
| CommandLine.InsertText | base/command_line.cc:304-321 | the item that goes into argv and the key that goes into the map, written out |
| CommandLine.CommandLine.HasSwitch | base/command_line.cc:265-267 | where the map agrees, whether a switch in argv has that key |
| CommandLine.CommandLine.GetSwitchValueNative | base/command_line.cc:288-293 | the value of the last switch in argv with that key; nothing if there is none |
| CommandLine.CommandLine.GetArgs | base/command_line.cc:341-350 | what comes after the switches, without the first `--` |
| CommandLine.CommandLine.AppendArgNative | base/command_line.cc:365-367 | the argument comes last, and the map still agrees |
| CommandLine.CommandLine.AppendSwitchesAndArguments | base/command_line.cc:64-84 | switches go after the switches and arguments to the end, both in order; the map still agrees |
| CommandLine.CommandLine.InitFromArgv | base/command_line.cc:218-223 | argv and the divider are as parsed; the map agrees if and only if every key from before was entered again |
| CommandLine.CommandLine.CopySwitchesFrom | base/command_line.cc:332-339 | the named switches of the source, which may be this command line itself, are entered; if both maps agreed, this one still does |
| CommandLine.CommandLine.AppendArguments | base/command_line.cc:369-374 | the switches and arguments of the other, and its program if asked for; the map still agrees. The other may be the command line itself only if there is nothing after its program |
| ArgvQuoting.EscapedRun | base/command_line.cc:107-126 | a run of backslashes is doubled exactly when a quote or the end comes next |
| ArgvQuoting.QuotedText | base/command_line.cc:98-138 | an argument is put in quotes if and only if it has a space, a backslash or a quote; with a space only, quotes are all that is added |
| ArgvQuoting.QuotedExample | base/command_line.cc:107-135 | `\"` and `\a\` written out as they are quoted |
| ArgvQuoting.QuoteForCommandLineToArgvW | base/command_line.cc:98-138 | the loop over runs computes what doubling backslash by backslash does |
| ArgvQuoting.GetCommandLineString | base/command_line.cc:225-255 | the quoted program and then, after a blank each, the switches with their values quoted and the quoted arguments |
| ArgvQuoting.TailOfPlain | base/command_line.cc:232-253 | an argument with nothing to quote and no `=` at its end is put on the command line as it is, after one blank |
| ArgvQuoting.TailOfSwitch | base/command_line.cc:236-245 | of a switch the value is quoted and the name is not |
| ArgvQuoting.TokenOfEscaped | base/command_line.cc:98-138 | what is read of an escaped argument and its closing quote is the argument |
| ArgvQuoting.TokenOfQuoted | base/command_line.cc:98-138 | what is read of a quoted argument is the argument, and reading stops after it |
| ArgvQuoting.TokenOfItem | base/command_line.cc:232-253 | what is read of an argument that survives is the argument |
| ArgvQuoting.TokenLags | base/command_line.cc:236-241 | once a backslash or quote was dropped, reading never catches up with the text |
| ArgvQuoting.QuoteIsLost | base/command_line.cc:236-241 | text with a quote is never read as it is |
| ArgvQuoting.BlankIsLost | base/command_line.cc:236-241 | text with a blank and no quote is not read as it is |
| ArgvQuoting.FirstIsSolid | base/command_line.cc:225-255 | the first argument read is not empty and not all tabs |
| ArgvQuoting.SplitUndoesTailIff | base/command_line.cc:225-255 | splitting the command line gives back the arguments, if and only if each is quoted and not empty and no tab of it goes unquoted, or is a switch whose name has no blank and no quote and whose value, if there is an `=`, is not empty |
| ArgvQuoting.SplitUndoesQuotingIff | base/command_line.cc:98-138 | quoted arguments joined by blanks are split into themselves, if and only if none is empty or has a tab and nothing that is quoted for |
| ArgvQuoting.TabExample | base/command_line.cc:98-104 | an argument with a tab and nothing else is split |
| FilePath.StripTrailingSeparators | base/file_path.cc:1199-1219 | the backwards loop computes the closed form: separators only leave themselves up to two and one if more, anything else loses all trailing ones |
| FilePath.StripIdempotent | base/file_path.cc:1199-1219 | stripping again changes nothing |
| FilePath.HeadAndName | base/file_path.cc:342-363 | BaseName is the last name, and the names of a path are those of its head and it |
| FilePath.DirNameOfHead | base/file_path.cc:306-340 | DirName cuts the last name off; `///x` becomes `//` |
| FilePath.ComponentsStep | base/file_path.cc:232-238 | a turn of the loop of GetComponents: the components of a path are those of its DirName and its BaseName |
| FilePath.TopComponents | base/file_path.cc:240-249 | what is left at the top is the root, or nothing for `.` |
| FilePath.DirNameDescends | base/file_path.cc:306-340 | the fixpoints are exactly `.`, `/` and `//`; every other step shortens the path or yields `.` |
| FilePath.DirNameTerminates | base/file_path.cc:232-237 | so the walk to the top ends |
| FilePath.GetComponents | base/file_path.cc:219-252 | the loop returns the root, if there is one, and the names between separators, without the `.` a relative path starts with |
| FilePath.AppendIsSnocIff | base/file_path.cc:453-485 | Append adds exactly its component, if and only if the path is not `.` with separators, nor nothing or `.` with component `.` |
| FilePath.AppendText | base/file_path.cc:453-485 | one `/` goes between, except that nothing and `.` leave the component alone, and a root needs none |
| FilePath.AppendAfterSeparators | base/file_path.cc:453-485 | separators at the end of the path come down to one, or to the root they stand for |
| FilePath.AppendNothing | base/file_path.cc:453-485 | an empty component yields the path without its trailing separators, and nothing for `.` |
| FilePath.DirNameAppendBaseNameIff | base/file_path.cc:306-363 | of a path that is not all separators, BaseName appended to DirName gives back the path, if and only if it is empty, or its last name is not followed by a separator and is preceded by nothing, `/`, `//` or a single separator after something other than `.` |
| FilePath.AppendAllIff | base/file_path.cc:287-297 | appending names adds exactly them if and only if the first does |
| FilePath.JoinThenComponents | base/file_path.cc:219-252 | joining a root and names and taking them apart gives them back, if and only if the list does not start with `.` |
| FilePath.JoinLosesDots | base/file_path.cc:453-485 | joining a relative list that starts with `.` loses a component |
| FilePath.AppendRelativePath | base/file_path.cc:258-300 | succeeds if and only if the parent's components are a non-empty strict prefix of the child's, and then appends exactly the remainder |
| FilePath.IsParent | base/file_path.cc:254-256 | the same condition |
| FilePath.IsParentOfIsStrictOrder | base/file_path.cc:254-256 | being a parent is irreflexive, asymmetric and transitive |
| FilePath.DirNameIsParent | base/file_path.cc:254-340 | DirName is a parent, if and only if it has components and the path is not all separators |
| FilePath.RelativePathComponents | base/file_path.cc:258-300 | the components of the result are those of the path and the remainder, if and only if the first of them is added |
| FilePath.SameDot | base/file_path.cc:121-160 | the search in the whole path finds the dot that the search in the base name finds |
| FilePath.ExtensionEmptyIff | base/file_path.cc:365-372 | there is no extension if and only if the last name is `.` or `..` or has no dot |
| FilePath.ExtensionSplitIff | base/file_path.cc:365-383 | RemoveExtension and Extension split the path, if and only if its last name is `.` or `..` or has no dot, or there is nothing to strip |
| FilePath.SeparatorAfterExtension | base/file_path.cc:365-383 | a name with an extension and a separator after it is not split |
| FilePath.ExtensionSplitExample | base/file_path.cc:365-383 | `a.b/` is not split |
| FilePath.AppendExample | base/file_path.cc:453-485 | `./` has the component `.`, and with `a` appended it has the component `a` alone |
| FilePath.InsertBeforeExtensionIff | base/file_path.cc:385-397 | the suffix goes before the extension and all else stays, if and only if it is empty, or the last name is not empty, `.` or `..`, and has no dot or nothing after it to strip |
| FilePath.ExtensionShape | base/file_path.cc:114-160 | an extension is a dot and no further dot, or one to four characters and then a common second extension |
| FilePath.ExtensionOfTwo | base/file_path.cc:114-160 | the extension of `a.x.y` is `.x.y` if and only if x has one to four characters and y is `gz`, `z` or `bz2` in any case, and else `.y` |
| FilePath.ExtensionOfOne | base/file_path.cc:114-160 | the extension of `a.y` is `.y`, even if a is nothing |
| FilePath.ExtensionOfTwoExample | base/file_path.cc:117-160 | `foo.tar.gz` has `.tar.gz`, and `foo.12345.gz` has `.gz` |
| FilePath.RemoveExtensionBeforeSeparators | base/file_path.cc:374-383 | with separators after the last name, everything from its last dot on goes |
| FilePath.InsertIntoSpecialName | base/file_path.cc:385-397 | a non-empty suffix yields the empty path if and only if the last name is empty, `.` or `..` |
| FilePath.InsertBeforeSeparators | base/file_path.cc:385-397 | with separators after the last name, they are lost: the suffix follows what comes before its last dot, and the extension follows |
| FilePath.NoExtensionInSeparators | base/file_path.cc:365-372 | separators have no extension |
| Bits.Log2Floor | base/bits.h:16-32 | -1 for zero; otherwise 2^r <= n < 2^(r+1) |
| Bits.FloorIsUnique | base/bits.h:16-32 | no other number satisfies these bounds |
| Bits.Log2Ceiling | base/bits.h:34-42 | -1 for zero; otherwise a power of two reaches n if and only if its exponent is at least r |
| Bits.ShiftFurther | base/bits.h:22-29 | shifting on drops exactly the bits in between |

## Left out

- Errno, EINTR, permissions, file modes and contents of the tree: a call that may fail fails for no stated reason.
- String paths inside FileEnumerator and Delete: there a path is its list of names. CreateDirectory and FilePath work on strings.
- Symbolic links that are followed, `fnmatch` patterns and stat failures in FileEnumerator; a tree is finite and does not change but by the modelled calls, and by mkdir of another process.
- `Enumerate` and the success of `Delete` and `CreateDirectory` are stated for a reliable system; what every call keeps is stated for any.
- FileDelete.Delete: the errno of a failing lstat is not modelled; a path that is not in the tree is one that does not exist.
- FileDelete.Delete: `rmdir` of the root directory always fails, so success is promised for other paths only.
- FileCopy.CopyFile: a path names one file; two links to one file are not modelled. The inner loop is modelled by a call of WriteFileDescriptor, which is the same loop.
- FileCopy.Descriptor.Write: positive progress is assumed; a write that answers 0 for ever would make the source's loops run for ever.
- `CopyDirectory`, `Move` and the other functions of `base/file_util_posix.cc`.
- Weak memory and barriers: steps are atomic and sequentially consistent. The other processors' atomic operations.
- AtomicOps.SharedWord: the retry loops end if a call is disturbed finitely often; a run in which the kernel fails, or others interfere, for ever is not modelled there. AtomicOps.Run has no such bound.
- AtomicOps.Wrap: signed overflow, which C++ leaves undefined, wraps as the processor does.
- AtomicSequenceNum.StaticAtomicSequenceNumber.GetNext: `Reset` and the class AtomicSequenceNumber, which only start the word at zero.
- Windows paths: drive letters and the separator `\`; encodings and locales.
- FilePath.Append: a component that starts with a separator, which the code refuses in debug builds.
- `PrependWrapper`, which does not keep the first item the program; the singleton and the ASCII and path variants of the accessors.
- ArgvQuoting.GetCommandLineString: the program's own splitting by CommandLineToArgvW, which has other rules, and that function's undocumented treatment of several quotes in a row.
- The lower-casing of switch names on Windows.
- FileDescriptorShuffle.PerformInjectiveMultimapDestructive: distinct dests, which debug builds check, are a precondition; so is that every source is open or reserved. A closed source makes `dup2` fail, unless a temporary has taken its number by then.
- Templates, callbacks, `AtExitManager`, `Environment`, pickling, Base64, time and the rest of `base/`.
