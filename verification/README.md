# Verification of diffuzzer's abstract filesystem

diffuzzer finds bugs by running one workload on two filesystems and comparing. Workloads are made by running
an abstract filesystem beside the generator, changed by a mutator, shortened by a reducer and printed as C
code; the two results are compared by listing both directory trees. This project models those parts in
Dafny and proves what they rely on.

## How the model is built

**A call can end in three ways.** It returns a value, it returns an error, or it does not return: it panics,
or it recurses through symlinks until the stack is gone. `Outcome` and `Status` have a case for each
(`Stuck`, `NoReturn`). Path resolution has no bound in the source, so `Resolution.Walk` and
`Resolution.Follow` take a recursion budget; `Resolve` is their common answer for every budget that suffices,
and `Stuck` if none does. Nothing is assumed to end: `Discipline` proves when it does.

**Two layers for the filesystem.** `Operations` says, as functions on a `State`, what each call of `fs.rs`
does, branch by branch. The class `FileSystem.AbstractFS` has the source's fields and updates them in place;
each of its methods is proved to do what its function says. What the source promises is proved about the
functions (`Contracts` says of every call when it succeeds, which error it gives, and exactly what it changes), for every state and every run. A run is any mix of successful and failing calls from a new
filesystem.

**Paths are real strings.** Doubled slashes, a trailing slash and the empty name are all in the model, as the
code takes them.

**Modules.** `Pathname`, `Nodes`, `Resolution`, `Equations`, `Forest`, `Contents`, `Operations`, `Contracts`,
`Renaming`, `Visibility`, `Uses`, `Invariants`, `Termination`, `DataPlane` and `Discipline` are about the state machine; `FileSystem` holds the class;
`Trails`, `Descent`, `Rounds`, `Labels` and `Alive` are about the search for alive nodes; `Names`, `Choices` and `Generator` about
generation; `Workloads`, `Bindings` and `Mutation` about mutation; `Encoding` and `Decoding` about the C code; `Reduction` about the
reducer; `Listings`, `Hashing` and `WalkOrder` about comparing directory trees; `Limits` holds inputs on which the code
falls short.

## Where the code falls short of what one would hope

- Rename is not atomic for an old path with doubled slashes before its last name, such as `/a//b`: past its
  checks it inserts the new entry, fails with `InvalidPath`, and records nothing. `Renaming.RenameAtomic` and
  `Invariants.ExecAtomic` say exactly when a failing call has changed the state (`Invariants.HalfDone`).
- A half-done rename breaks replay: the recording rebuilds the state after a call if and only if the call is
  not half done (`Invariants.ReplayStep`; `Limits.ReplayNotRebuilt` is a run of three calls). That is exact for
  one call; over a run, having no half-done call is enough but not needed, since a later call may bring about
  what the half-done one left behind.
- A half-done rename of a directory gives it two parents. The directories stay a forest if and only if that
  does not happen (`Invariants.ForestStep`; `Limits.ForestLost` is a run of three calls). Then the check of
  rename no longer sees all ancestors, so one more, successful, rename puts a directory below itself
  (`Limits.CircleMade`), and the search for alive nodes, which has no visited set, finds directories at paths
  of every length (`Limits.CircleEndless`). Exactly when the paths that the search follows are bounded, and it
  so ends, is stated for every namespace: if and only if no directory at or below the root is below itself, and
  none at or below what a symlink of the first round leads to (`Descent.SearchEnds`, and `Descent.LevelEnds` for
  one round). A forest is not needed: a directory with two parents does no harm by itself (`Limits.SharedEnds`).
- The list of visited symlinks starts afresh for a symlink in dirname position. One symlink from `/a` to
  `/a/b` makes resolution of either path endless (`Limits.SpiralNeverEnds`). Exactly when a resolution ends is
  stated twice, for every namespace and path: if and only if it ends within a budget of (n + 1) squared for n
  symlinks (`Termination.EndsWithinBound`), and if and only if the path does not enter, in dirname position, a
  symlink from which entering symlinks leads round in a circle (`Termination.EndlessIsCircular`). Workloads that
  introduce each name once, and point symlinks at older names only, never get there
  (`Discipline.ResolutionEnds`).
- Creating at `/` or at a path that ends with a slash succeeds and makes an entry with an empty name, which no
  path leads to (`Visibility.CreatedIsFound`). Names stay proper if and only if no such path is used
  (`Limits.NamesStayProper`), and the search for
  alive nodes lists everything where its path leads if and only if no directory that it visits has an empty
  name (`Labels.AllLeadExactly`; `Limits.EmptyNameMisleads` is an instance).
- Renaming an entry to itself removes it (`Limits.SelfRenameRemoves`). Renaming a symlink to a path through that symlink makes the new path
  dangle. `Visibility.RenamedIsFound` says exactly when what was renamed is found; `Limits.SymlinkLost` is a
  run of three successful calls after which a symlink is found under neither path.
- A directory `a` that is not empty, beside a file `a.txt`, is listed out of string order; the comparison of
  such listings reports a path that both have (`WalkOrder.DottedDifference`). `WalkOrder.ListingIncreasing` says
  exactly when a listing is in order. For the result: a tree is compared exactly with every part of it if and
  only if it is so listed (`WalkOrder.PartsCompared`).
- Deleting or inserting an Open numbers the Opens anew but not the uses, which may silently come to belong to
  another Open: a workload that wrote to one file writes to another (`Limits.ReboundBefore`,
  `Limits.ReboundWrites`). `Bindings.DeletionKeeps` and `Bindings.InsertionKeeps` say exactly when every use
  keeps its Open.

## Model

| member | source | states |
|---|---|---|
| Pathname.JoinSplit | diffuzzer/src/abstract_fs/pathname.rs:36-56 | joining a proper name to any valid path is undone by splitting, gives a valid path that is not the root, and adds exactly one segment |
| Pathname.SplitJoin | diffuzzer/src/abstract_fs/pathname.rs:36-56 | splitting a valid path other than the root is undone by joining if the path is canonical; otherwise one leading slash may be lost |
| Pathname.SplitSegments | diffuzzer/src/abstract_fs/pathname.rs:36-48 | the segments of a path are those of its split parent and then its name, unless that is empty |
| Pathname.SplitParentValid | diffuzzer/src/abstract_fs/pathname.rs:36-60 | the parent of a valid path is valid if and only if there are no doubled slashes before the last name |
| Pathname.SegmentsProper | diffuzzer/src/abstract_fs/pathname.rs:46-48 | segments are never empty and hold no slash |
| Pathname.ShowSegments | diffuzzer/src/abstract_fs/pathname.rs:46-56 | joining proper names one by one gives a canonical path with exactly those segments |
| Pathname.CanonicalRoundTrip | diffuzzer/src/abstract_fs/pathname.rs:46-60 | a path is canonical if and only if joining its segments gives it back |
| Pathname.ShowInjective | diffuzzer/src/abstract_fs/pathname.rs:46-56 | different lists of names give different paths |
| Resolution.FollowBudget | diffuzzer/src/abstract_fs/fs.rs:424-474 | a recursion budget that suffices can be raised without changing the answer |
| Resolution.ResolveIs | diffuzzer/src/abstract_fs/fs.rs:416-474 | resolution has one answer, whatever sufficient budget it is computed with |
| Resolution.ForgetVisited | diffuzzer/src/abstract_fs/fs.rs:455-471 | a path that resolves with some symlinks counted as visited resolves alike with fewer |
| Resolution.TargetVisited | diffuzzer/src/abstract_fs/fs.rs:455-471 | whether a symlink counts as visited while its own target is resolved makes no difference to a success |
| Resolution.FinishIsEnter | diffuzzer/src/abstract_fs/fs.rs:436-471 | following a node as last component, with a visited list, and entering it as dirname, with a fresh one, succeed on the same directories and pass the same ones |
| Resolution.JoinResolves | diffuzzer/src/abstract_fs/fs.rs:424-488 | a path one segment longer resolves, unfollowed, if and only if its parent resolves to a directory that has the name, to that child, past the parent's directories and the parent |
| Resolution.PlainResolves | diffuzzer/src/abstract_fs/fs.rs:455-471 | a path that does not end in a symlink resolves alike followed and unfollowed |
| Resolution.LinkResolves | diffuzzer/src/abstract_fs/fs.rs:455-471 | a path that ends in a symlink resolves, followed, if and only if the target does, and to the same node |
| Equations.InvalidExact | diffuzzer/src/abstract_fs/fs.rs:430-432 | an invalid path gives InvalidPath, whatever there is |
| Equations.RootExact | diffuzzer/src/abstract_fs/fs.rs:433-435 | the root path leads to the root, past no directory |
| Equations.JoinExact | diffuzzer/src/abstract_fs/fs.rs:436-459 | a path one segment longer resolves, unfollowed, to the child of what its parent resolves to, past its directories and then it; to NotFound without such a child, to NotADir if the parent is none; else as the parent does, errors and endless recursion included |
| Equations.LinkExact | diffuzzer/src/abstract_fs/fs.rs:460-471 | a path that ends in a symlink resolves, followed, to just what the target resolves to: node, error, or no end; the visited list makes no difference |
| Equations.PlainExact | diffuzzer/src/abstract_fs/fs.rs:460-473 | any other path resolves alike followed and unfollowed, errors included |
| Equations.LoopExactly | diffuzzer/src/abstract_fs/fs.rs:460-466 | LoopExists is the answer if and only if following symlinks as last components leads round in a circle, or to a path that gives it on the way |
| Equations.SegmentsDecide | diffuzzer/src/abstract_fs/fs.rs:433-434 | of a valid path only its segments matter |
| Equations.DirExact | diffuzzer/src/abstract_fs/fs.rs:483-488 | where a directory is wanted, anything else that the path leads to gives NotADir |
| Equations.FileExact | diffuzzer/src/abstract_fs/fs.rs:476-481 | where a file is wanted, anything else gives NotAFile |
| Termination.EndsWithinBound | diffuzzer/src/abstract_fs/fs.rs:424-474 | for every namespace and path, resolution ends if and only if it ends within a budget of (n + 1) squared for n symlinks, and then with that answer |
| Termination.EndlessIsCircular | diffuzzer/src/abstract_fs/fs.rs:440-471 | where entries are in range, resolution never ends if and only if the path enters, in dirname position, a symlink from which a chain of symlinks, each entered by the target before, comes back to one it has been at |
| Termination.EnteredReturns | diffuzzer/src/abstract_fs/fs.rs:440-471 | where a resolution ends, the target of every symlink that it enters in dirname position resolves within a smaller budget |
| Termination.Settled | diffuzzer/src/abstract_fs/fs.rs:424-474 | if no more symlink targets resolve within a budget larger by n + 1, no more ever do |
| Forest.NotOwnDescendant | diffuzzer/src/abstract_fs/fs.rs:203-231 | in a forest no directory is below itself |
| Forest.ResolveCovers | diffuzzer/src/abstract_fs/fs.rs:212-218 | the directories returned by resolution, and its result, include every ancestor of the result, also where symlinks were crossed |
| Forest.MkdirForest | diffuzzer/src/abstract_fs/fs.rs:122-138 | a new directory keeps the forest |
| Forest.MoveForest | diffuzzer/src/abstract_fs/fs.rs:220-226 | moving an entry keeps the forest if the moved directory is no ancestor of its new parent |
| Operations.ReplayConcat | diffuzzer/src/abstract_fs/fs.rs:331-372 | replaying two parts in a row is replaying the whole, unless the first fails |
| Contracts.MkDirContract | diffuzzer/src/abstract_fs/fs.rs:122-138 | succeeds if and only if the parent path leads to a directory without the name, with NameAlreadyExists or the error of the parent path else; exactly one entry is added, for a new empty directory |
| Contracts.CreateContract | diffuzzer/src/abstract_fs/fs.rs:141-158 | the same, for a new empty file that is not open |
| Contracts.SymlinkContract | diffuzzer/src/abstract_fs/fs.rs:184-200 | the same, for a new symlink to the text given, whatever that is |
| Contracts.HardlinkContract | diffuzzer/src/abstract_fs/fs.rs:162-182 | the old path is looked at first: an error of its parent, HardlinkToSymlinkForbidden for a symlink entry, its own error, NotAFile; then as above; exactly one entry is added, for the file that the old path leads to |
| Contracts.RemoveContract | diffuzzer/src/abstract_fs/fs.rs:106-119 | RootRemovalForbidden for the root, NotFound without the entry, or the error of the parent path; else exactly that entry is gone, whatever it was for, and one entry fewer remains |
| Contracts.RenameContract | diffuzzer/src/abstract_fs/fs.rs:203-231 | every way a rename ends, condition by condition; on success exactly one entry moves, an existing file, symlink or empty directory at the destination is replaced, and every other entry is as before |
| Contracts.RenameSucceedsExactly | diffuzzer/src/abstract_fs/fs.rs:203-231 | a rename succeeds if and only if the old path leads somewhere, the new one to no directory with entries, its parent to a directory that is neither the one moved nor below it, and the old path has no doubled slashes before its name |
| Contracts.OpenContract | diffuzzer/src/abstract_fs/fs.rs:236-250 | NotAFile, FileAlreadyOpened or the error of the path; else the file has the next descriptor, at offset zero |
| Contracts.CloseContract | diffuzzer/src/abstract_fs/fs.rs:253-262 | BadDescriptor if so many were never opened, DescriptorWasClosed if the recording closes it; else the file is not open any more and otherwise as before |
| Contracts.ReadContract | diffuzzer/src/abstract_fs/fs.rs:266-285 | fails like close; else only the offset moves, by what was asked for or up to the end |
| Contracts.WriteContract | diffuzzer/src/abstract_fs/fs.rs:289-317 | fails like close; else byte by byte what the file holds, its new size, and the offset behind what was written; other files are as before |
| Contracts.FSyncContract | diffuzzer/src/abstract_fs/fs.rs:320-328 | fails like close; else is recorded and changes nothing |
| Renaming.OldParentStays | diffuzzer/src/abstract_fs/fs.rs:220-226 | after the new entry is inserted, the old parent path still resolves, to the same directory |
| Renaming.RenameMoves | diffuzzer/src/abstract_fs/fs.rs:203-231 | a rename past its checks inserts the node under the new name and deletes the old entry, which held that node, and records this; or, with doubled slashes before the old name, fails after the insertion |
| Renaming.RenameAtomic | diffuzzer/src/abstract_fs/fs.rs:203-231 | rename succeeds if and only if its checks pass and the old path has no doubled slashes before its name; a failing rename changes the state if and only if it got to insert an entry that was not there |
| Renaming.RenameCount | diffuzzer/src/abstract_fs/fs.rs:220-226 | the number of directory entries stays the same, or drops by one when the destination existed |
| Renaming.RenameForest | diffuzzer/src/abstract_fs/fs.rs:203-231 | rename keeps the forest, also when the destination is reached through symlinks |
| Visibility.CreatedIsFound | diffuzzer/src/abstract_fs/fs.rs:122-200 | after mkdir, create, hardlink or symlink the path leads to the new node if and only if it does not end with a slash, and every path that resolved before resolves as before |
| Visibility.RemovedIsGone | diffuzzer/src/abstract_fs/fs.rs:106-119 | after a removal the path leads nowhere, and whatever still resolves does so as before |
| Uses.RemovalKeeps | diffuzzer/src/abstract_fs/fs.rs:106-119 | after a removal a path that resolved still does, to the same place, if and only if its resolution did not use the removed entry |
| Uses.ResolveWithoutEntry | diffuzzer/src/abstract_fs/fs.rs:424-474 | the same for any entry taken away |
| Visibility.RenamedIsFound | diffuzzer/src/abstract_fs/fs.rs:203-231 | after a rename the old path leads nowhere; what was renamed is found under the new path if and only if that does not end with a slash, is not the renamed entry itself, and has a parent that is found in the tree without the old entry, which is always so for files and directories; if the new path leads anywhere, then there |
| Visibility.NewParentKept | diffuzzer/src/abstract_fs/fs.rs:220-226 | in the tree after a rename the new parent is found if and only if it is found in the tree before without the old entry: neither the overwritten nor the new entry is on the way |
| Visibility.DirShared | diffuzzer/src/abstract_fs/fs.rs:424-474 | a path that resolves in two parts of one namespace resolves alike with only the entries that both parts have |
| Visibility.FollowWithout | diffuzzer/src/abstract_fs/fs.rs:424-474 | deleting an entry does not change a resolution that neither passes nor ends in its node, unless that is a symlink |
| Invariants.DataNeverFails | diffuzzer/src/abstract_fs/fs.rs:266-317 | a read or write through an open descriptor always succeeds: no content error and no failed offset assertion |
| Invariants.ExecInv | diffuzzer/src/abstract_fs/fs.rs:106-328 | every successful call keeps the forest, indices in range, tight contents, offsets within files, and the life cycle of descriptors |
| Invariants.ExecAtomic | diffuzzer/src/abstract_fs/fs.rs:106-328 | a call that does not succeed has changed the state if and only if it is a half-done rename: past its checks, doubled slashes before the old name, and an entry that was not there |
| Invariants.ForestStep | diffuzzer/src/abstract_fs/fs.rs:106-328 | whatever is called, with whatever success, the directories stay a forest if and only if the call is no half-done rename of a directory |
| Invariants.InvStep | diffuzzer/src/abstract_fs/fs.rs:106-328 | every call, successful or not, keeps the whole invariant if and only if it is no half-done rename of a directory |
| Invariants.DataStep | diffuzzer/src/abstract_fs/fs.rs:236-328 | every call, in whatever namespace, keeps contents tight, offsets within files and the life cycle of descriptors |
| Invariants.RunData | diffuzzer/src/abstract_fs/fs.rs:93-328 | the same after any calls at all |
| Invariants.ReplayStep | diffuzzer/src/abstract_fs/fs.rs:331-372 | where the recording rebuilds the state, it rebuilds the state after one more call if and only if that call is not half done |
| Invariants.PlainNeverHalfDone | diffuzzer/src/abstract_fs/fs.rs:203-231 | no call of a run is half done if no renamed path has doubled slashes before its name |
| Invariants.RunInv | diffuzzer/src/abstract_fs/fs.rs:93-328 | the invariant holds after any mix of successful and failing calls none of which is a half-done rename of a directory |
| Invariants.RunForest | diffuzzer/src/abstract_fs/fs.rs:93-231 | in every such run from a new filesystem the directories are a forest and none is below itself |
| Invariants.LifeCycleSnoc | diffuzzer/src/abstract_fs/fs.rs:236-328 | when a recording may be continued by an operation: an Open takes the next number, any other use is of an opened and not closed one |
| Invariants.ReplayRebuilds | diffuzzer/src/abstract_fs/fs.rs:331-372 | replaying the recording of any run in which no call is half done in the state it meets succeeds and rebuilds directories, files, symlinks, descriptors and recording |
| Invariants.ReplayInv | diffuzzer/src/abstract_fs/fs.rs:331-372 | a successful replay keeps the invariant |
| Contents.WriteIsOverwrite | diffuzzer/src/abstract_fs/content.rs:69-154 | at an offset within the content, the written slices flatten to the old prefix, the written range and the old rest; no slice is empty, at most two slices more, and the size is the larger of old size and end of the write |
| Contents.ReadIsSlice | diffuzzer/src/abstract_fs/content.rs:157-202 | at an offset within the content, the slices read flatten to that part of the flat content, and none is empty |
| Contents.ReadAfterWrite | diffuzzer/src/abstract_fs/content.rs:69-202 | reading where one has just written gives back what was written |
| Contents.SliceHolds | diffuzzer/src/abstract_fs/content.rs:13-29 | a slice stands for the indices between its two ends, both included |
| Contents.Content.Size | diffuzzer/src/abstract_fs/content.rs:204-206 | the loop adds up the slice sizes |
| Contents.Content.WriteBack | diffuzzer/src/abstract_fs/content.rs:59-66 | appends one slice, or nothing for size zero |
| Contents.Content.Write | diffuzzer/src/abstract_fs/content.rs:69-154 | fails exactly when the offset is past the end, and then changes nothing; otherwise the in-place loops leave exactly the slices of the specification, none empty |
| Contents.Content.SplitAt | diffuzzer/src/abstract_fs/content.rs:84-117 | the split loop makes the offset a slice boundary without changing the indices before and after it |
| Contents.Content.TruncateFrom | diffuzzer/src/abstract_fs/content.rs:125-139 | the truncate loop and the filter remove exactly the overwritten indices |
| Contents.Content.Read | diffuzzer/src/abstract_fs/content.rs:157-202 | fails exactly when the offset is past the end; otherwise builds exactly the slices of the specification |
| DataPlane.ReadSimulates | diffuzzer/src/abstract_fs/fs.rs:266-285 | a read through a descriptor returns the flat file from the descriptor's offset on, cut to size |
| DataPlane.Simulates | diffuzzer/src/abstract_fs/fs.rs:106-328 | seen as flat files with offsets, every successful call does one step of a plain table in which names play no part |
| DataPlane.RunSimulates | diffuzzer/src/abstract_fs/fs.rs:106-328 | any run, seen as flat files with offsets, is the plain table stepped through its successful calls |
| DataPlane.RunGrows | diffuzzer/src/abstract_fs/fs.rs:106-328 | over any calls at all no file is lost or shrinks, and a file keeps its contents unless a successful write goes through one of its descriptors |
| DataPlane.ReopenReads | diffuzzer/src/abstract_fs/fs.rs:236-285 | opening a file and reading it gives its contents from the start |
| Discipline.ResolutionEnds | diffuzzer/src/abstract_fs/fs.rs:424-474 | where names are introduced once and symlinks mention older names only, every resolution ends, within one more step into a symlink than there are operations |
| Discipline.CallReturns | diffuzzer/src/abstract_fs/fs.rs:106-328 | in such a state every call returns, given that the paths it splits hold a slash |
| Discipline.FitStep | diffuzzer/src/abstract_fs/fs.rs:106-328 | a successful call that keeps the discipline keeps names ranked, rename to a fresh name included |
| Discipline.ReplayReturns | diffuzzer/src/abstract_fs/fs.rs:331-372 | replaying a disciplined workload returns, with or without success |
| Discipline.FollowsDisciplined | diffuzzer/src/abstract_fs/generator.rs:39-44 | a workload in two parts is disciplined if and only if the first is and the second keeps the discipline after it |
| FileSystem.AbstractFS.constructor | diffuzzer/src/abstract_fs/fs.rs:93-103 | a new filesystem: an empty root directory and nothing else |
| FileSystem.AbstractFS.ResolveNode | diffuzzer/src/abstract_fs/fs.rs:416-422 | gives the outcome of resolution |
| FileSystem.AbstractFS.ResolveNodeRec | diffuzzer/src/abstract_fs/fs.rs:424-474 | the loop over segments and both recursions give the outcome of the budgeted resolution |
| FileSystem.AbstractFS.ResolveFilePath | diffuzzer/src/abstract_fs/fs.rs:476-481 | the resolved node if it is a file, else the error |
| FileSystem.AbstractFS.ResolveDirPath | diffuzzer/src/abstract_fs/fs.rs:483-488 | the resolved directory and the ones passed, else the error |
| FileSystem.AbstractFS.Remove | diffuzzer/src/abstract_fs/fs.rs:106-119 | new state and result are those of the specification |
| FileSystem.AbstractFS.MkDir | diffuzzer/src/abstract_fs/fs.rs:122-138 | new state and result are those of the specification |
| FileSystem.AbstractFS.Create | diffuzzer/src/abstract_fs/fs.rs:141-158 | new state and result are those of the specification |
| FileSystem.AbstractFS.Hardlink | diffuzzer/src/abstract_fs/fs.rs:162-182 | new state and result are those of the specification |
| FileSystem.AbstractFS.MakeSymlink | diffuzzer/src/abstract_fs/fs.rs:184-200 | new state and result are those of the specification |
| FileSystem.AbstractFS.CheckRename | diffuzzer/src/abstract_fs/fs.rs:203-219 | the checks before the first change give the destination directory and the node, or the first error |
| FileSystem.AbstractFS.Rename | diffuzzer/src/abstract_fs/fs.rs:203-231 | new state and result are those of the specification, the half-done case included |
| FileSystem.AbstractFS.Open | diffuzzer/src/abstract_fs/fs.rs:236-250 | new state and result are those of the specification |
| FileSystem.AbstractFS.Close | diffuzzer/src/abstract_fs/fs.rs:253-262 | new state and result are those of the specification |
| FileSystem.AbstractFS.Read | diffuzzer/src/abstract_fs/fs.rs:266-285 | new state, result and slices read are those of the specification |
| FileSystem.AbstractFS.Write | diffuzzer/src/abstract_fs/fs.rs:289-317 | new state and result are those of the specification |
| FileSystem.AbstractFS.FSync | diffuzzer/src/abstract_fs/fs.rs:320-328 | new state and result are those of the specification |
| FileSystem.AbstractFS.Replay | diffuzzer/src/abstract_fs/fs.rs:331-372 | runs the operations in order and stops at the first failure |
| Trails.TrailIsResolution | diffuzzer/src/abstract_fs/fs.rs:483-562 | following a canonical path name by name from the root ends in a directory if and only if the path resolves to that directory |
| Trails.EntryResolves | diffuzzer/src/abstract_fs/fs.rs:521-562 | unfollowed, a canonical path resolves if and only if its parent's directory has the name, to that entry |
| Descent.DescentEnds | diffuzzer/src/abstract_fs/fs.rs:521-562 | the ways down from a directory through directories are bounded if and only if none goes round in a circle; then all are shorter than the number of directories |
| Descent.LevelEnds | diffuzzer/src/abstract_fs/fs.rs:507-562 | where the round before is bounded, the paths of a round are bounded if and only if no directory at or below one of its starts is below itself |
| Descent.SearchEnds | diffuzzer/src/abstract_fs/fs.rs:495-562 | for every namespace whose entries are in range, both rounds follow paths of bounded length if and only if no circle is at or below the root or any start of the second round |
| Descent.AcyclicBounded | diffuzzer/src/abstract_fs/fs.rs:495-562 | which is so in every namespace without circles, forest or not |
| Rounds.RoundStep | diffuzzer/src/abstract_fs/fs.rs:521-562 | visiting one directory of the queue keeps: no path queued twice, and exactly what lies below visited paths listed |
| Rounds.SearchStep | diffuzzer/src/abstract_fs/fs.rs:521-562 | one directory taken from the queue keeps the round on course, and fewer of the finitely many paths of its level remain, so it ends without a visited set |
| Rounds.LevelPaths | diffuzzer/src/abstract_fs/fs.rs:521-562 | the paths of a bounded level are finitely many |
| Rounds.ForestSearchable | diffuzzer/src/abstract_fs/fs.rs:495-562 | a forest of proper names in which all symlinks resolve has all that the search needs |
| Rounds.RoundEnds | diffuzzer/src/abstract_fs/fs.rs:521-562 | when the queue is empty, exactly what lies below directories of this level has been listed, once each |
| Rounds.NextStarts | diffuzzer/src/abstract_fs/fs.rs:507-511 | the directories behind symlinks found in one round are exactly the starts of the next |
| Rounds.ListsSound | diffuzzer/src/abstract_fs/fs.rs:495-562 | every listed directory or file path resolves, followed, to the index listed, the symlinked files included; every listed symlink path resolves, unfollowed, to a symlink |
| Rounds.ListsComplete | diffuzzer/src/abstract_fs/fs.rs:495-562 | every canonical path to a file, or to a directory, whose dirname crosses fewer symlinks than there are rounds is listed with its index |
| Rounds.NoRepeatsGrow | diffuzzer/src/abstract_fs/fs.rs:495-562 | a further round lists no path twice |
| Labels.RunSlashFree | diffuzzer/src/abstract_fs/fs.rs:93-328 | after any calls at all no name holds a slash |
| Labels.ChildLeads | diffuzzer/src/abstract_fs/pathname.rs:50-56 | the path joined from that of a directory and a name in it leads to the entry of that name if and only if the name is not empty |
| Labels.AllLeadExactly | diffuzzer/src/abstract_fs/fs.rs:495-562 | everything that the search lists is where its path leads if and only if no directory that it visits has an empty name |
| Alive.VisitDir | diffuzzer/src/abstract_fs/fs.rs:521-562 | all children of one directory are listed, in whatever order the map gives them; only the symlinks in it must resolve one way or the other |
| Alive.VisitChild | diffuzzer/src/abstract_fs/fs.rs:521-562 | one child is listed as what it is, a symlink also as what it leads to |
| Alive.AliveFollowOnce | diffuzzer/src/abstract_fs/fs.rs:521-562 | where the paths of the round are bounded and its directories can be read and have no empty names, the loop over the queue ends and lists exactly one level |
| Alive.AliveSearch | diffuzzer/src/abstract_fs/fs.rs:495-518 | where this holds of both rounds, lists exactly what is reached over at most one symlink to a directory, each path once |
| Names.DecimalInjective | diffuzzer/src/abstract_fs/generator.rs:39-44 | different counters give different names |
| Names.NameGen.Next | diffuzzer/src/abstract_fs/mutator.rs:121-128 | the name is not used, is the decimal of the counter, and all names skipped are used |
| Choices.NewNodeSucceeds | diffuzzer/src/abstract_fs/generator.rs:103-111 | mkdir, create and symlink with a fresh name in any alive directory succeed |
| Choices.HardlinkSucceeds | diffuzzer/src/abstract_fs/generator.rs:124-128 | a hardlink from any alive file to a fresh name in any alive directory succeeds |
| Choices.RemoveSucceeds | diffuzzer/src/abstract_fs/generator.rs:112-123 | removing anything alive but the root succeeds |
| Choices.RenameSucceeds | diffuzzer/src/abstract_fs/generator.rs:129-150 | renaming anything alive to a fresh name in an alive directory succeeds or is refused with RenameToSubdirectoryError and no change; in the root it succeeds |
| Choices.OpenSucceeds | diffuzzer/src/abstract_fs/generator.rs:151-154 | opening an alive closed file succeeds |
| Choices.UseSucceeds | diffuzzer/src/abstract_fs/generator.rs:155-175 | close, read, write and fsync on the descriptor of an alive open file succeed |
| Choices.StepKeeps | diffuzzer/src/abstract_fs/generator.rs:52-198 | one generated operation is recorded once, keeps the state fit, and keeps the recording reproducing it |
| Generator.AlwaysChoosable | diffuzzer/src/abstract_fs/generator.rs:84-103 | a positive weight on mkdir, create or symlink leaves something to choose in every state |
| Generator.TakeStock | diffuzzer/src/abstract_fs/generator.rs:64-83 | the pools chosen from are exactly the alive nodes, without the root, closed, and open |
| Generator.PoolsExactly | diffuzzer/src/abstract_fs/generator.rs:64-83 | what is in the pools, by path resolution: directories but the root, files not open under any path, also through a final symlink, open files under paths that do not end in a symlink, symlinks |
| Generator.UsableExactly | diffuzzer/src/abstract_fs/generator.rs:84-102 | a kind is offered if and only if there is something to apply it to; removal and rename if and only if there is something other than a symlink |
| Generator.AppendRename | diffuzzer/src/abstract_fs/generator.rs:129-150 | the retry loop ends once the root is picked, with exactly one successful rename of something alive to a name in an alive directory |
| Generator.AppendOne | diffuzzer/src/abstract_fs/generator.rs:52-198 | for every choice, exactly one operation succeeds and is recorded, of a kind with positive weight that is offered, and with every operand from the pool for it; no unwrap fails |
| Generator.GenerateNew | diffuzzer/src/abstract_fs/generator.rs:37-49 | a workload of exactly the wanted length that replays to itself, introduces each name once, uses descriptors in order, and holds only kinds with positive weight |
| Workloads.ReplayRecords | diffuzzer/src/abstract_fs/fs.rs:331-372 | a successful replay records what it was given, with the Opens renumbered from the present number of descriptors |
| Workloads.ReplayFromScratch | diffuzzer/src/abstract_fs/fs.rs:331-372 | what a replay from scratch records is the renumbered workload, and that replays to itself |
| Workloads.WithoutDisciplined | diffuzzer/src/abstract_fs/mutator.rs:38-47 | deleting an operation keeps the fresh-name discipline |
| Workloads.WithoutGood | diffuzzer/src/abstract_fs/mutator.rs:38-47 | deleting any operation of a good workload leaves one whose replay returns, and if it succeeds its recording is good |
| Workloads.FollowsInserted | diffuzzer/src/abstract_fs/mutator.rs:50-140 | inserting an operation under a name unused in the rest keeps the discipline of the rest |
| Bindings.DeletionKeeps | diffuzzer/src/abstract_fs/mutator.rs:38-47 | deleting an operation from a recording leaves every use with its Open if and only if it is no Open, or nothing later uses its descriptor or one opened after it |
| Bindings.InsertionKeeps | diffuzzer/src/abstract_fs/mutator.rs:50-140 | inserting an operation leaves every use with its Open if and only if it is no Open, or nothing behind it uses a descriptor opened behind it |
| Bindings.UseHasOpen | diffuzzer/src/abstract_fs/fs.rs:236-328 | in a recording every use has its Open before it |
| Mutation.RemoveOperation | diffuzzer/src/abstract_fs/mutator.rs:38-47 | gives a workload if and only if the rest replays; it is the rest with Opens renumbered, and replays to itself |
| Mutation.AllNamesExactly | diffuzzer/src/abstract_fs/mutator.rs:56-108 | the names kept off are exactly those of its operations |
| Mutation.NamesKeptOff | diffuzzer/src/abstract_fs/mutator.rs:56-108 | which are all segments of all paths in it, removals aside |
| Mutation.CollectNames | diffuzzer/src/abstract_fs/mutator.rs:56-108 | the loop collects those names |
| Mutation.InsertOperation | diffuzzer/src/abstract_fs/mutator.rs:50-140 | the operation tried is of a kind with positive weight, succeeds behind the part before its place and is under no name of the workload; there is a result if and only if the part before replays, and the part after behind that operation; then it is the workload with it inserted, up to renumbering of Opens, and good again |
| Mutation.Mutator.MutateOnce | diffuzzer/src/fuzzing/greybox/mutator.rs:51-89 | one operation more, only if there is room, or one fewer, if and only if the mutated workload replays, and good again; else no change |
| Mutation.Mutator.Mutate | diffuzzer/src/fuzzing/greybox/mutator.rs:40-50 | a chain of at most max_mutations single changes; the result is good and no longer than the larger of the input's length and max_length; if nothing changed, every try was a mutation that does not replay |
| Encoding.VarInjective | diffuzzer/src/abstract_fs/encode.rs:10-12 | different descriptors have different variables |
| Encoding.EncodeC | diffuzzer/src/abstract_fs/encode.rs:16-101 | the two loops give the header, one statement for each operation, and the end |
| Encoding.CodeReads | diffuzzer/src/abstract_fs/encode.rs:16-101 | for every recording with a sound life cycle: exactly the opened descriptors are declared, each variable is assigned once and used only between its assignment and its close |
| Encoding.RunCodeReads | diffuzzer/src/abstract_fs/encode.rs:16-101 | the same for the recording of any calls at all on a new filesystem |
| Decoding.CodeBack | diffuzzer/src/abstract_fs/encode.rs:16-101 | from the code for a workload the workload can be read back, operation by operation and argument by argument, by the signatures of the functions called |
| Decoding.ModeBack | diffuzzer/src/abstract_fs/encode.rs:104-111 | from a printed mode the flags can be read back |
| Decoding.NumberBack | diffuzzer/src/abstract_fs/encode.rs:10-12 | from a printed number the number can be read back |
| Reduction.SameDiffEquivalence | diffuzzer/src/fuzzing/reducer.rs:188-213 | sameness of differences is reflexive, symmetric and transitive |
| Reduction.CheckSameDiff | diffuzzer/src/fuzzing/reducer.rs:188-213 | the loop decides sameness |
| Reduction.SameDiffExactly | diffuzzer/src/fuzzing/reducer.rs:188-213 | two differences are the same if and only if they are equal but for the index and the text of trace rows |
| Reduction.NotInteresting | diffuzzer/src/fuzzing/outcome.rs:48-50 | a difference is of no interest if and only if it is the same as none |
| Reduction.DeletedTransitive | diffuzzer/src/fuzzing/reducer.rs:79-185 | deleting from what deleting has left is deleting |
| Reduction.DisciplinedAllReturn | diffuzzer/src/fuzzing/reducer.rs:79-185 | whatever is deleted from a disciplined workload, replaying the rest returns |
| Reduction.ReduceFixed | diffuzzer/src/fuzzing/reducer.rs:79-185 | a pass leaves a workload unchanged if and only if no single operation of it can be spared |
| Reduction.ReductionsCount | diffuzzer/src/fuzzing/reducer.rs:79-185 | every reduction that is kept is reported, once |
| Reduction.ReduceByDiff | diffuzzer/src/fuzzing/reducer.rs:79-185 | the index stays in bounds; the result is the input with operations deleted, still has the original difference, and is what one pass down leaves; at most one harness run for each operation; every report is true, and none of a crash, a variation or a reduction is left out |
| Listings.DifferenceExact | dash/src/lib.rs:133-213 | for listings in order that start with the unskipped root: exactly the entries unskipped in one only, and those of both whose hashes differ, in descending order and so without duplicates |
| Listings.NoDifference | dash/src/lib.rs:133-201 | for such listings the result is empty if and only if both have the same unskipped paths with the same hashes |
| Listings.CalcFileInfoHash | dash/src/lib.rs:119-131 | the loop computes the hash of what is fed for a path; what that is, Hashing.FedBelowExactly and Hashing.FedExactly say |
| Hashing.FedExactly | dash/src/lib.rs:41-54 | of two entries of one kind the same is fed if and only if path, owner and group agree, and size, mode and number of links as far as the options ask for them |
| Hashing.FedBelowExactly | dash/src/lib.rs:119-131 | fed are exactly the entries whose path begins with the given one, in order |
| Hashing.HashSees | dash/src/lib.rs:119-131 | if the hash keeps different inputs apart, two hashes agree if and only if these entries do, one by one, in the fields asked for |
| Hashing.DifferenceSees | dash/src/lib.rs:162-176 | then a path of both listings is reported if and only if one of the entries beginning with it differs in such a field |
| Hashing.FileDifference | dash/src/lib.rs:162-176 | for a path that no other begins with: if and only if a field asked for differs |
| Listings.HandleLastDiff | dash/src/lib.rs:203-213 | pushes the entries from an index above zero down to the first, and nothing for index zero |
| Listings.LeftOverExactly | dash/src/lib.rs:203-213 | all entries from an index down to the first are pushed, one after another |
| Listings.Compare | dash/src/lib.rs:144-196 | one turn of the loop: what it pushes and which index it lowers |
| Listings.GetDiff | dash/src/lib.rs:133-201 | ends for all listings that are not empty, and gives the specified difference |
| WalkOrder.ListingIncreasing | dash/src/lib.rs:86-114 | a tree listed with siblings sorted by name is in string order of relative paths if and only if no non-empty directory has a sibling that continues its name with a character up to the slash |
| WalkOrder.NamesAboveSeparated | dash/src/lib.rs:86-161 | so it is in order whenever all characters of all names come after the slash |
| WalkOrder.KeptIncreasing | dash/src/lib.rs:86-97 | leaving out skipped paths keeps the order |
| WalkOrder.TreesDifference | dash/src/lib.rs:78-201 | the listings of two trees that are in order, compared: the result is exactly their difference, empty if and only if unskipped paths and hashes agree |
| WalkOrder.PartsCompared | dash/src/lib.rs:78-201 | a tree is compared exactly with every part of it, whatever metadata and hash function, if and only if no non-empty directory of it has a sibling that continues its name below the slash |
| WalkOrder.Misreported | dash/src/lib.rs:133-201 | where two paths of a tree are listed in the wrong order, any part that ends with the first of them is compared wrongly |
| WalkOrder.WalkDifferent | dash/src/lib.rs:86-114 | no path of a tree is listed twice |
| WalkOrder.DottedDifference | dash/src/lib.rs:133-201 | two listings of trees with a non-empty `a` beside `a.txt` make a path of both be reported as being in one only |
| Limits.SpiralNeverEnds | diffuzzer/src/abstract_fs/fs.rs:440-453 | one symlink on a new filesystem makes resolution endless, in spite of the visited list |
| Limits.RenameHalfDone | diffuzzer/src/abstract_fs/fs.rs:220-226 | a rename of `/a//b` leaves the new entry behind, fails, and the recording no longer rebuilds the state |
| Limits.ReplayNotRebuilt | diffuzzer/src/abstract_fs/fs.rs:203-372 | three calls on a new filesystem reach a state that replaying its recording does not rebuild, so the condition of ReplayRebuilds is needed |
| Limits.ForestLost | diffuzzer/src/abstract_fs/fs.rs:203-231 | three calls on a new filesystem give a directory two parents |
| Limits.CircleMade | diffuzzer/src/abstract_fs/fs.rs:212-226 | a fourth call, a successful rename, and a directory is below itself |
| Limits.CircleEndless | diffuzzer/src/abstract_fs/fs.rs:521-562 | in the namespace so reached directories are found at paths of every length |
| Limits.CircleUnbounded | diffuzzer/src/abstract_fs/fs.rs:521-562 | so the paths of the first round are not bounded there |
| Limits.SharedEnds | diffuzzer/src/abstract_fs/fs.rs:521-562 | in the state of one call before, which is no forest, they are |
| Limits.NamesStayProper | diffuzzer/src/abstract_fs/fs.rs:106-328 | where all names are proper, a successful call keeps them so if and only if the path it adds does not end with a slash |
| Limits.EmptyNameMisleads | diffuzzer/src/abstract_fs/fs.rs:122-138 | after mkdir at `/` the search would list the new directory at a path that leads to the root |
| Limits.SymlinkMovedAway | diffuzzer/src/abstract_fs/fs.rs:203-231 | a symlink renamed to a path through itself is not found there, though the rename succeeds |
| Limits.SymlinkLost | diffuzzer/src/abstract_fs/fs.rs:203-231 | three successful calls on a new filesystem, and a symlink is found under neither its old nor its new path |
| Limits.SelfRenameRemoves | diffuzzer/src/abstract_fs/fs.rs:203-231 | two successful calls on a new filesystem, the second a rename of a directory to itself, and it is gone |
| Limits.ReboundBefore | diffuzzer/src/abstract_fs/fs.rs:331-372 | a workload that opens two files and writes to the first |
| Limits.ReboundWrites | diffuzzer/src/abstract_fs/mutator.rs:38-47 | without the first Open it still replays, and writes to the second file |

## Left out

- Integer widths: sizes, offsets and indices are unbounded here; sums in the source are `u64` and `usize` and are taken not to overflow.
- Iteration order of hash maps is any order, and the final sort of the alive lists is not modelled, so nothing is said about their order.
- Error messages and the payloads of errors: only the variants are kept.
- Mode flags are carried and printed, and otherwise mean nothing, as in the source. The default mode and the list of interesting numbers are constants of the model.
- Random distributions and weights: a random choice is any choice of positive weight.
- Generator.AppendRename: `patience` stands for how often chance misses the root in a row; nothing is said about a run that misses it for ever.
- Mutation.Mutator.Mutate: `attempts` stands for how many tries chance needs; nothing is said about a run in which no try ever succeeds. It asks for what Mutation.Mutator.MutateOnce asks for, and for weights that leave some mutation at every length.
- Mutation.InsertOperation: asks for a workload that keeps the fresh-name discipline, as generated and mutated ones do; one read from a file need not.
- Mutation.Mutator.MutateOnce: asks for such a workload that replays to itself, and for weights that leave something to choose in every state; without the latter the source panics.
- FileSystem.AbstractFS.Read: a file keeps its slices as a value in its record; the `Content` object that works in place is made from it for each read and write and put back, so aliasing between files is not modelled (there is none in the source).
- Alive.AliveSearch: says nothing about what is listed where a directory that it visits has an entry with an empty name, which creating at a path that ends with a slash leaves (Limits.NamesStayProper says exactly when). Some listed path then does not lead to what it is listed for (Labels.AllLeadExactly).
- Alive.AliveFollowOnce: as for Alive.AliveSearch.
- Contents.Content.Write: its two inner loops are methods of their own, SplitAt and TruncateFrom.
- Listings.Compare: the body of the loop in `get_diff` is a method of its own.
- Reduction.ReduceByDiff: the harness is a function from workloads to outcomes; errors of compiling, running or saving, which end the loop early, are left out, and so are the texts of reports. The input's replays must return, which DisciplinedAllReturn gives for what the fuzzer makes.
- The hash function is any function of the sequence of values written to the hasher; skip patterns are any predicates on paths.
- The traversal itself (file metadata, the filesystem walk) is a tree of names; the whole-tree hash of `calc_dir_hash` is left out.
- Encoding.EncodeC: statements, not their C text, so nothing is said about quoting; paths are taken to hold no quotes.
- Decoding.CodeBack: asks for flag names that are not empty, hold no blanks and are not the digit zero, as those of all mode flags.
- Hashing.HashSees: asks that entries of one path are of one kind in both listings; entries of different kinds are fed by different options.
- Everything around these parts: commands, supervisor, runner, mounts, observers, brokers, schedules and coverage maps, parsing of traces, Markdown and configuration, and the executor in C++. Processes, files and the network play no part in the model.
