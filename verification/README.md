# ephemerd: a verified model of bind pinning, bind staging, build repair and image writing

ephemerd runs CI jobs in containers and gives each job a small Docker API. This project
models the parts of it whose correctness rests on an argument rather than on a single
expression, in the form the code has (descriptor tables, mount tables and healers are
classes with mutable fields; concurrent protocols are step machines, and the object or
handler in question is shown to run inside its machine), and proves what the code and its
comments promise.

- **Bind pinning** (`FileTree`, `Kernel`, `BindWalk`, `BindCreate`, `BindPin`,
  `BindTranslate`, `Sorting`). A file tree of inodes, a host with a descriptor table, and
  the resolver, the creator of missing directories, the pin and the translation of a bind
  source on top. Before every system call the environment may rewrite the tree. All it is
  bound by is `Evolved`: inodes keep their kind, and nothing from outside a bind root
  becomes a non-symlink child of something inside. A `quiet` host has no interference, a
  `reliable` one no injected errors; statements without these words hold for every host.
  The meaning of a contained lookup is the recursive function `Resolve`, which follows
  parent links and knows no stack.
- **Bind staging** (`MountPath`, `MountTable`, `Stager`, `StagerRemoval`, `StagerHidden`,
  `MountStager`). The mountinfo text
  format, the mount table, the unmount-and-remove procedures, the stager as a system of
  threads that share a lock, and the stager as an object whose calls are stretches of runs
  of that system.
- **Build store repair and sweep** (`Heal`, `BuildRetry`, `BuildHandler`, `BuildScope`,
  `BuildSweep`). The escalation ladder under any interleaving of build requests, and the
  collector of dead build records under any schedule of jobs, writes and sweeps.
- **Initramfs builder** (`LoadOrder`, `Cpio`) and **log readers** (`LogTail`).
- `Text` holds the string functions the others share.

## What was found

- *The walk and openat2.* The comment on `resolveBeneathWalk` says that it reproduces
  RESOLVE_IN_ROOT. It gives the kernel's answer, error for error, except where a `.`, `..`
  or empty component follows a non-directory: the kernel reports ENOTDIR, the walk goes
  on, and the two still agree only if it comes to a name there after all.
  `FileTree.WalkMatchesKernel` is the exact condition, `FileTree.WalkIsLaxer` a family of
  paths on which the two differ. Containment is not affected.
- *White space in source paths.* `mountPointsUnder` splits mountinfo lines with
  `strings.Fields`. The kernel escapes space, tab and newline only, so any other white
  space (carriage return, no-break space and so on) in the path of a staged source shifts
  the fields, and the mount may not be listed. `MountTable.ParsedStaysUnder` says exactly
  when it is. A source is then safe exactly if each of its mounts is listed or lies on one
  that is, since detaching that one takes it along, whatever other sources are called: no
  run deletes such a source (`StagerRemoval.SparesSource`), and from every idle state a
  source that is mounted otherwise can be staged and is deleted by the next teardown that
  gets through (`StagerHidden.HiddenMountIsDeleted`). What saves sources in practice is the
  bind of the staging directory onto itself, on which all of them lie
  (`StagerRemoval.SelfBindProtects`); but the code tolerates its failure
  (pkg/dind/bindstage_linux.go, line 185), and `StagerHidden.CarriageReturnIsDeleted` is a
  source that is then deleted on every host.
- *Auto-creation.* A missing path is created exactly when the first missing name is free.
  If a dangling symlink has it, creation fails (`BindCreate.CreateBeneath`,
  `BindCreate.DanglingBlocks`).
- *The `..` check of `pathComponents`* never fires, since the path was cleaned before
  (`BindPin.PathComponents`).
- *Completeness of the live set.* The sweep is meant never to delete a record of a running
  job. `imagegc.RunningContainers` skips a namespace whose containers it fails to list
  (pkg/imagegc/imagegc.go, lines 174 to 182), so the live set may lack one.
  `BuildSweep.LostOnlyIfMissed` and `BuildSweep.MissedIsLost` say, for every schedule and
  every capture, exactly when a running job loses a record: the capture missed the job
  though it was running then, and the record is older than the grace.
  `BuildSweep.SkippedJobLoses` is a schedule in which it does. With complete captures it
  never does (`BuildSweep.RunningJobsKeepRecords`).
- *`printLastLines`* is documented as printing the last n lines. It prints n + 1 when the
  log has more than n lines and the last is unfinished (`LogTail.PrintsLastLines`).
- *Module order* needs an acyclic dependency file, because a module is marked only after
  its dependencies (`LoadOrder.Loader.Add`), and no order exists otherwise
  (`LoadOrder.OrderNeedsAcyclic`).

## Model

| member | source | states |
|---|---|---|
| BindWalk.ResolveBeneathWalk | pkg/dind/bindpin_linux.go:269-350 | Under any interference the returned descriptor is inside the bind root, exactly one descriptor is left open on success and none on failure, and the loop ends (links left, then components left). On an unchanging tree the result and the error are those of the recursive resolution |
| BindWalk.StepBack | pkg/dind/bindpin_linux.go:293-299 | `..` pops and closes the top, not at the root, and keeps the loop invariant: stack inside, held exactly once, answer unchanged |
| BindWalk.StepInto | pkg/dind/bindpin_linux.go:302-342 | A named component is descended into or expanded with the invariant kept; every failure leaves nothing of the walk open and is the answer |
| BindWalk.FollowLink | pkg/dind/bindpin_linux.go:327-342 | A symlink is let go in every case, an absolute target closes all but the root, and target plus queue still stand for the whole answer |
| FileTree.ResolveDot | pkg/dind/bindpin_linux.go:290-300 | What resolution means, from a directory: `.` and empty components stay, `..` goes to the parent and nowhere at the root |
| FileTree.ResolveName | pkg/dind/bindpin_linux.go:302-317 | A name goes on into a directory, rests on anything else, and is missing without an entry |
| FileTree.ResolveLink | pkg/dind/bindpin_linux.go:319-342 | A symlink costs a link; a target whose first character is a slash starts over at the root, any other where the link is; with none left there are too many |
| FileTree.ResolveBeyond | pkg/dind/bindpin_linux.go:243-350 | After a non-directory openat2 goes nowhere, the walk passes over `.`, steps back on `..` and stops at a name |
| FileTree.LinkBudget | pkg/dind/bindpin_linux.go:319-326 | A path that needs so many links resolves, to the same place, if and only if it may follow as many, else there are too many |
| FileTree.FortyLinks | pkg/dind/bindpin_linux.go:319-326 | The walk finds what can be reached through at most 40 symlinks and nothing beyond |
| Kernel.JobMayRewire | pkg/dind/bindpin_linux.go:246-257 | Interference covers a job that, in any directory, puts any names in place of any others, for anything inside its roots or any symlink |
| Kernel.JobMayLink | pkg/dind/bindpin_linux.go:246-257 | And a symlink to anywhere may turn up at any time |
| FileTree.StackUp | pkg/dind/bindpin_linux.go:274-276 | The stack is the parent chain from the root: popping it is following the parent link, clamped at the root |
| FileTree.WalkMatchesKernel | pkg/dind/bindpin_linux.go:243-350 | The walk answers what openat2 answers if and only if the path puts no dot component after a non-directory or comes to a name after one all the same; it answers ENOTDIR if and only if it comes to such a name; openat2 succeeds if and only if the walk does and there is no such dot component |
| FileTree.WalkIsLaxer | pkg/dind/bindpin_linux.go:290-300 | With a file f and a link to f/.. the kernel says ENOTDIR and the walk returns the root |
| FileTree.ResolveAppend | pkg/dind/bindpin_linux.go:374-383 | Resolving a concatenation is resolving its halves in turn, links counted through |
| FileTree.ResolveGrows | pkg/dind/bindpin_linux.go:374-383 | When a tree only gains entries every answer but a missing name stays the same |
| Kernel.ResolveInZone | pkg/dind/bindpin_linux.go:69-83 | On an unchanging tree contained resolution ends inside the root's zone |
| BindCreate.ResolveBeneath | pkg/dind/bindpin_linux.go:179-208 | Whichever resolver runs: contained, one descriptor or none, right result, and ENOENT only where a name is missing |
| BindCreate.CreateUnder | pkg/dind/bindpin_linux.go:390-427 | Gives up the parent descriptor on every exit and never leaves the parent's zone. If the first name is free, makes exactly the missing chain with the parent's owner, or on failure only adds directories; if a non-directory has it, fails without a trace. If a directory has it, goes on in it: in every case non-directories stay as they are, directories keep place and entries and may only gain some or change hands, and the returned one has the parent's owner |
| BindCreate.CreateBeneath | pkg/dind/bindpin_linux.go:374-386 | Of a missing path exactly the tail below the deepest resolvable prefix is made and the path then resolves to the returned node; a failure only adds directories inside; without faults it succeeds if and only if the first missing name is free |
| BindCreate.PathResolves | pkg/dind/bindpin_linux.go:366-383 | Once its tail is made, the whole path resolves, for either resolver, to the tail's last directory with the links of the prefix |
| BindCreate.DeepestPrefix | pkg/dind/bindpin_linux.go:375-383 | Where the deepest resolvable prefix ends there is a directory in which the next name is free or taken by a non-directory |
| BindCreate.FreeOnlyHere | pkg/dind/bindpin_linux.go:375-383 | The condition for creation can only be met at the deepest resolvable prefix |
| BindCreate.DanglingBlocks | pkg/dind/bindpin_linux.go:408-413 | Where a dangling symlink has the name, openat2 finds nothing and creation cannot succeed |
| BindPin.PathComponents | pkg/dind/bindpin.go:132-149 | Returns the components of the lexically cleaned path and never refuses |
| Text.NormalizePlain | pkg/dind/bindpin.go:132-149 | Cleaning keeps names, all of them and in order |
| Text.NormalizeDots | pkg/dind/bindpin.go:132-149 | Wherever they stand, `.` and empty components vanish and `..` takes the name before it along, or vanishes at the top |
| Text.RootedPlain | pkg/dind/bindpin.go:132-149 | A clean path is taken apart into exactly the names it was joined from |
| BindPin.Pin.Close | pkg/dind/bindpin.go:98-113 | The first call closes the descriptor and runs the teardown once, every later one does nothing |
| BindPin.CloseBindPins | pkg/dind/bindpin.go:118-122 | Over a batch with nils and repetitions exactly the descriptors its open pins own are closed, each once |
| BindPin.NewPin | pkg/dind/bindpin_linux.go:143-175 | The mode tells directories, regular files and everything else apart, by the pinned inode; if it cannot be had the descriptor is closed |
| BindPin.PinBindSource | pkg/dind/bindpin_linux.go:95-130 | One descriptor more, owned by the new pin, or none; inside the root under any interference; on an unchanging tree the pinned node is the one the path named before or the directory made for it, nothing else changed, and without faults it succeeds if and only if the path resolves or may and can be created |
| BindTranslate.SameLengthKeys | pkg/dind/bindtranslate.go:193-200 | Two keys of one length that both match a source are equal |
| BindTranslate.MatchesIs | pkg/dind/bindtranslate.go:195-200 | A key matches if it is the source or the source goes on after it with a slash |
| BindTranslate.MatchUnique | pkg/dind/bindtranslate.go:185-203 | There is only one right answer, so map order and sort ties cannot matter |
| BindTranslate.MatchBindPrefix | pkg/dind/bindtranslate.go:185-203 | The answer is the longest key that equals the source or is a directory prefix of it, with the source rebuilt from key and suffix; none only if no key matches |
| BindTranslate.PinBindable | pkg/dind/bindtranslate.go:109-116 | Pins beneath the root and closes what is neither directory nor regular file; with nobody else about it succeeds if and only if the path leads to either, or to nothing and can be created |
| BindTranslate.PinFromLayers | pkg/dind/bindtranslate.go:140-155 | Writable from the upper layer, read-only from a lower one, always from the first that has the path; a failed layer leaves nothing open |
| BindTranslate.TranslateBindSource | pkg/dind/bindtranslate.go:83-156 | Relative sources refused; bind table, then rootfs, then layers; a bind point itself passes through unpinned; everything else is pinned inside its root; one descriptor on a pinned success, none otherwise |
| MountPath.UnescapeEscape | pkg/dind/bindstage_linux.go:376-394 | Decoding undoes the kernel's octal escaping of every path |
| MountPath.UnescapeMountPath | pkg/dind/bindstage_linux.go:378-394 | The index loop computes the decoding |
| MountPath.UnescapeBackslash | pkg/dind/bindstage_linux.go:383-391 | Only a backslash with three octal digits that make a byte is an escape, every other one stands for itself |
| MountPath.LineFields | pkg/dind/bindstage_linux.go:360-364 | The fields of a line are three words, the pieces of the two escaped paths, and the rest |
| MountPath.FirstField | pkg/dind/bindstage_linux.go:361-365 | The first field of an escaped path decodes to the path up to its first white space that the kernel leaves alone |
| MountPath.ParsedPointIs | pkg/dind/bindstage_linux.go:361-365 | What is taken for the mount point: the point itself, cut at such white space, or a piece of the source's path |
| MountTable.UnderIs | pkg/dind/bindstage_linux.go:355-369 | Below a directory is what goes on after a slash, whether the directory was given with one or not |
| MountTable.ParsedStaysUnder | pkg/dind/bindstage_linux.go:355-369 | A mount at or below a directory is recognised as one if and only if it is shown; always when source path and directory hold no unescaped white space |
| MountTable.OddNameIsMissed | pkg/dind/bindstage_linux.go:361-365 | A source with such white space inside a name is shown under no directory |
| MountTable.EmptyListingIsFree | pkg/dind/bindstage_linux.go:303-310 | If every source below is guarded, that is, shown or mounted on something that is, an empty listing means nothing is mounted at or below |
| MountTable.WhatIsDeleted | pkg/dind/bindstage_linux.go:303-312 | Otherwise what a removal after an empty listing deletes are sources mounted unseen that nothing guards |
| MountTable.ListedIffShown | pkg/dind/bindstage_linux.go:359-369 | A mount at or below a directory is listed there if and only if it is shown |
| MountTable.PeelCarried | pkg/dind/bindstage_linux.go:332-342 | A lazy unmount takes what is mounted on top along, so no mount outlives the one it lies on |
| MountTable.Mounts.MountPointsUnder | pkg/dind/bindstage_linux.go:346-374 | The scan returns the decoded fifth fields at or below the directory, in table order |
| MountTable.DeepestFirst | pkg/dind/bindstage_linux.go:296-302 | After the sort no mount point comes before one strictly below it |
| MountTable.NoneBelow | pkg/dind/bindstage_linux.go:296-302 | When it is a point's turn nothing is mounted strictly below it any more |
| MountTable.Mounts.DetachMount | pkg/dind/bindstage_linux.go:335-342 | Only mounts at or below the point go; with nothing below it, up to sixteen stacked ones do, and no other point changes |
| MountTable.Mounts.DetachAll | pkg/dind/bindstage_linux.go:299-302 | If the lines that concern the directory can be read and points without children can be detached, nothing is left mounted there, however high mounts were stacked and whatever other lines look like |
| MountTable.Mounts.UnmountTreeAndRemove | pkg/dind/bindstage_linux.go:291-314 | Other mounts and files stay; a removal happens only after an empty second listing; each source it deletes is mounted unseen and was not guarded, whatever else is mounted; with an obliging kernel the tree is gone |
| MountTable.Mounts.UnmountAndRemove | pkg/dind/bindstage_linux.go:317-330 | Only the target's mounts and its mountpoint go, the latter only when nothing is listed there |
| MountTable.JobsApart | pkg/dind/bindstage_linux.go:235-239 | Two jobs' directories share no path, also when one name is a prefix of the other |
| MountTable.SweepStagedBindsForJob | pkg/dind/bindstage_linux.go:238-252 | Every other job's mounts and files are untouched; each source deleted is mounted unseen and was not guarded; with an obliging kernel the job's mounts and files are gone |
| StagerRemoval.StepTorn | pkg/dind/bindstage_linux.go:35-42 | While one thread is about to remove the tree no step of any other can mount in it, and nothing there is shown |
| StagerRemoval.DestroyedWasHidden | pkg/dind/bindstage_linux.go:203-220 | In every interleaving of stage, pin close and teardown, with others active elsewhere and whatever is mounted: a deleted source was deleted by a removal of the tree in which it was mounted unseen |
| StagerRemoval.SparesSource | pkg/dind/bindstage_linux.go:58-112 | In every interleaving a source that is guarded whenever it is mounted is never deleted, whatever other sources are mounted |
| StagerRemoval.NeverDeletesThroughMount | pkg/dind/bindstage_linux.go:58-112 | So if every source is, nothing is ever deleted through a mount, and the tree is removed only while nothing is mounted in it |
| StagerRemoval.SelfBindProtects | pkg/dind/bindstage_linux.go:180-192 | In every run in which the staging directory was bound onto itself every source is guarded, whatever it is called |
| StagerRemoval.TargetRemovedBare | pkg/dind/bindstage_linux.go:104-110 | In every interleaving, whatever sources are called, a pin's mountpoint is removed only while nothing is mounted at or below it, given that at first nothing was mounted below such a path without something at it |
| StagerHidden.HiddenMountIsDeleted | pkg/dind/bindstage_linux.go:203-220 | Conversely, from every idle state, a mount that is not guarded, once staged, is deleted through by a teardown that detaches all it lists, provided no other line misleads it and nothing is stacked more than sixteen high |
| StagerHidden.FirstHiddenIsDeleted | pkg/dind/bindstage_linux.go:185-220 | In particular the first one, on any host with nothing below the directory, after a failed self-bind, if it is not shown |
| StagerHidden.CarriageReturnIsDeleted | pkg/dind/bindstage_linux.go:360-366 | A directory with a carriage return in its name is such a source, whatever the host and the staging directory |
| Stager.ClosedIsFinal | pkg/dind/bindstage_linux.go:43-50 | Closed is absorbing and nothing is staged after it, in every run |
| Stager.TargetsDistinct | pkg/dind/bindstage_linux.go:72-73 | Staged paths are pairwise distinct in every run until the 64-bit counter wraps |
| MountStager.Staging.Stage | pkg/dind/bindstage_linux.go:58-112 | The call is a stretch of a run of the system; refused without an open pin or when closed; on success the path is the next number, was free before, and shows the very inode the pin holds; with an obliging kernel it succeeds if that path is free; in every case the table only grows, by the self-bind and at or below a returned path |
| MountStager.Staging.EnsureDirLocked | pkg/dind/bindstage_linux.go:148-193 | A stretch of a run; nothing happens once ready; with an obliging kernel the directory is there afterwards and bound onto itself |
| MountStager.Staging.Unstage | pkg/dind/bindstage_linux.go:106-110 | The call is a stretch of a run, touches only the target, on success leaves nothing mounted at it, and succeeds with an obliging kernel if nothing is mounted on the pin |
| MountStager.Staging.ClosePin | pkg/dind/bindpin.go:98-113 | Closing a pin releases, the first time, the path that stage returned for it and its descriptor, and nothing after that |
| MountStager.Staging.Teardown | pkg/dind/bindstage_linux.go:203-220 | The call is a stretch of a run, closes for good, and with an obliging kernel leaves nothing mounted or made below the directory |
| MountStager.Staging.SourceSpared | pkg/dind/bindstage_linux.go:35-42 | So the object never deletes a source that was guarded whenever it was mounted |
| MountStager.Staging.NothingDestroyed | pkg/dind/bindstage_linux.go:35-42 | And nothing at all if every source was guarded |
| Text.DecimalInjective | pkg/dind/bindstage_linux.go:72-73 | Different counters give different names |
| Text.DecimalValue | pkg/dind/bindstage_linux.go:72-73 | A name is the decimal numeral of its counter |
| Heal.ParsesSnapshot | pkg/buildkit/heal.go:124-134 | A message is recognised if and only if it ends in the snapshot signature, whatever stands before; the key is the one in it less a colon and is never empty |
| Heal.ParsesLease | pkg/buildkit/heal.go:188-194 | The same for the quoted lease signature |
| Heal.HealKeyNotEmpty | pkg/buildkit/heal.go:209-217 | No failure has the empty key |
| Heal.HealKeyIs | pkg/buildkit/heal.go:209-217 | The key is that of the snapshot signature or else that of the lease signature |
| Heal.NoKey | pkg/buildkit/heal.go:209-217 | A failure has no key if and only if it has neither signature |
| Heal.ChainIdIsFound | pkg/buildkit/heal.go:58-70 | A layer chain ID is found at the end of any longer message |
| Heal.LeaseIsFound | pkg/buildkit/heal.go:145-175 | So are the lease of a cache record and that of its view |
| Heal.Healer.NextId | pkg/buildkit/heal.go:305-323 | Returns and remembers the next rung for the key |
| BuildRetry.LadderHolds | pkg/buildkit/heal.go:271-332 | In every interleaving the actions handed out for a key between two forgets are prune, rebuild, then give up |
| BuildRetry.SolvesAtMostTwice | pkg/dind/buildkit_build.go:108-136 | A request solves at most twice, and never again without a completed prune or rebuild of its own before |
| BuildRetry.RetriesBounded | pkg/dind/buildheal.go:38-163 | However many requests fail on a key, they cause at most two extra solves per forget and two more |
| BuildHandler.Server.ApplyHealAction | pkg/dind/buildheal.go:122-163 | Reports a repair if and only if a prune or rebuild was completed, and fails to only if the context was seen canceled or a rebuild failed; touches the store only right after seeing the context alive; rebuilds only when asked to or after a failed prune |
| BuildHandler.Server.HealAndRetryBuild | pkg/dind/buildheal.go:38-117 | The call is a stretch of a run; it asks for a retry if and only if the store was mended in it, and does not only if the failure has no key, the key is given up on, the context was canceled or a rebuild failed |
| BuildHandler.Server.Build | pkg/dind/buildkit_build.go:115-136 | The call is a stretch of a run; its error is that of the last solve; it solves once, and again if and only if the store was mended and the client could be told; the key is forgotten if and only if the second solve succeeds |
| BuildScope.RecordNamesJob | pkg/dind/buildkit_cleanup.go:33-43 | The job read back from a stored name is the lower-cased ID it was stored under |
| BuildScope.RecordIs | pkg/dind/buildkit_cleanup.go:33-43 | A name is of a job if and only if it is build.ephemerd.local, that job and a reference, with slashes between |
| BuildScope.StoredAs | pkg/dind/buildscope.go:63-68 | What a build is stored as; without job or reference the name stays as it is |
| BuildScope.LowerIs | pkg/dind/buildscope.go:67 | Capital letters become small, each its own, and nothing else changes |
| BuildScope.PrefixMatches | pkg/dind/buildkit_cleanup.go:22-27 | A record carries a job's prefix if and only if it is of that job, case aside |
| BuildScope.ScopesApart | pkg/dind/buildscope.go:63-68 | Stored names are equal if and only if job, case aside, and reference are |
| BuildScope.DedupLoop | pkg/dind/dind.go:869-880 | The loop computes the names without empty ones and repetitions |
| BuildScope.DedupOrder | pkg/dind/dind.go:869-880 | That is, no name twice and all in the order in which they first came |
| BuildScope.PushFindsOwnBuild | pkg/dind/buildscope.go:80-88 | A push of a built tag, with or without docker.io/, reaches the job's own record before any unscoped name |
| BuildScope.PushOrder | pkg/dind/buildscope.go:80-88 | What a push tries, in full: the job's own names, then the name as given, then the one without docker.io/ |
| BuildSweep.DeadBuildRecords | pkg/dind/buildkit_cleanup.go:91-111 | The two loops name, in order, the dead records |
| BuildSweep.DeadNamesHas | pkg/dind/buildkit_cleanup.go:91-111 | A name is selected if and only if it is of a job, no live ID lower-cases to that job, and some record of the name is known to be older than the grace |
| BuildSweep.NeverNamed | pkg/dind/buildkit_cleanup.go:98-107 | Nothing that is of no job, or of unknown age, is selected |
| BuildSweep.PruneDeadBuildRecords | pkg/dind/buildkit_cleanup.go:167-202 | Deleted is exactly what is of a job that is not live, was last written, or else made, more than 15 minutes ago, and can be deleted |
| BuildSweep.CleanupJobBuildRecords | pkg/dind/buildkit_cleanup.go:125-156 | Deleted is exactly what carries the job's prefix and can be deleted, and nothing for an empty ID |
| BuildSweep.DecisionExact | pkg/dind/buildkit_cleanup.go:45-59 | Whatever the capture missed, a decision no later than the grace after it selects a record of a running job if and only if the capture lacks the job and the grace since the write is over, and the job was then running at the capture |
| BuildSweep.DecisionIsSafe | pkg/dind/buildkit_cleanup.go:167-202 | If the capture saw every running job, a decision no later than the grace after it selects nothing of a job running then, whether captured or started later; the pass limit of ten minutes implies the bound |
| BuildSweep.PrefixNamesJob | pkg/dind/buildkit_cleanup.go:125-143 | A name with a job's prefix belongs to that job or to none |
| BuildSweep.LostOnlyIfMissed | cmd/ephemerd/main.go:1249-1261 | Over every schedule and with any captures, a step removes a record of a running job only if the decision of its pass met a capture that had missed the job and a record older than the grace |
| BuildSweep.MissedIsLost | pkg/dind/buildkit_cleanup.go:189-196 | Conversely, a pass that may decide and has missed a job so can remove the record while the job runs |
| BuildSweep.SkippedJobLoses | pkg/imagegc/imagegc.go:174-182 | A schedule, for any job and reference, in which an empty capture costs a running job its record |
| BuildSweep.RunningJobsKeepRecords | cmd/ephemerd/main.go:1249-1261 | With complete captures, over every schedule of starts, ends, writes, cleanups and sweep passes, no step removes a record of a running job |
| BuildSweep.UnscopedStays | pkg/dind/buildkit_cleanup.go:98-101 | In no schedule does the sweep remove a name that is of no job |
| LoadOrder.Loader.Add | mage/download/download.go:566-577 | Terminates on an acyclic file; keeps the list duplicate-free and ordered, with the set as its prefixed image; adds the module and only what it reaches |
| LoadOrder.Loader.AddAll | mage/download/download.go:562-580 | The list holds exactly what the request reaches, each module once and after all its dependencies |
| LoadOrder.OrderNeedsAcyclic | mage/download/download.go:571-576 | Any such list shows that no cycle is reachable from its members |
| LoadOrder.OrderedCloses | mage/download/download.go:571-576 | A list with every module after its dependencies is closed under reachability |
| LoadOrder.NeverBack | mage/download/download.go:845-855 | What the walk reaches never leads back to where it stands |
| Cpio.WriteCpioEntry | mage/download/download.go:1819-1884 | The bytes written are those of the entry, or a prefix of them if a write fails, and only then |
| Cpio.WriteArchive | mage/download/download.go:1783-1803 | The bytes written are the entries and the trailer, or a prefix of them if a write fails, and only then |
| Cpio.EntryAligned | mage/download/download.go:1865-1881 | Every entry is a multiple of four bytes long |
| Cpio.EntryReads | mage/download/download.go:1819-1884 | A reader of the newc grammar recovers an entry at any aligned offset |
| Cpio.HeaderReads | mage/download/download.go:1830-1858 | All thirteen header fields, as a reader finds them behind the magic number |
| Cpio.RoundTrip | mage/download/download.go:1783-1803 | Reading an archive gives the entries before the first named TRAILER!!!, hence all of them if and only if none is |
| LogTail.PrintLastLines | cmd/ephemerd/service_darwin.go:88-143 | Prints the longest suffix with at most n newlines, whatever the chunk size; nothing for negative n or after a failed read |
| LogTail.LongestTailUnique | cmd/ephemerd/service_darwin.go:120-136 | No longer suffix has at most n newlines |
| LogTail.PrintsLastLines | cmd/ephemerd/service_darwin.go:87-88 | That is the last n lines if and only if the log ends in a newline or has at most n lines |
| LogTail.Follower.Drain | pkg/dind/attach.go:217-233 | Copies until end of file; on every exit the client has a beginning of the log; ends early only if a read or a write fails |
| LogTail.Follower.TailLogToWriter | pkg/dind/attach.go:199-254 | The client has a beginning of the log at all times, and all of it when the loop ends through done without an error; it ends otherwise only if a read or a write fails |

## Left out

- openat2 itself, its latch and its fallback notice: on an unchanging tree openat2 is the recursive specification, under interference it is taken to stay inside, and which resolver runs is a free choice.
- Permissions, name and path length limits, magic links and mounts inside the tree that is resolved: not part of the file tree. An injected error stands for all of them.
- LogTail.Follower.TailLogToWriter: does not model a log that cannot be opened, and takes it that `done` is set after finitely many polls, because otherwise the loop has no end to speak of.
- MountPath.UnescapeEscape: paths are sequences of characters, so an escape that decodes to part of a multi-byte character is not treated as such; the kernel writes none.
- The two in-place sorts (matchBindPrefix and unmountTreeAndRemoveWith): one method on a sequence that leaves the order of equal lengths open, so update in place is not captured.
- MountStager.Staging: a call runs without interruption. Interleavings are those of the machine in Stager, where each system call is a step.
- BindPin.Pin.Close: counts how often the attached teardown is run instead of calling it; MountStager.Staging.ClosePin joins the two.
- StagerHidden.HiddenMountIsDeleted: takes every unmount to succeed. A teardown that is misled or cannot detach all it lists removes nothing, so it deletes nothing either.
- Propagation of mounts and unmounts to peer groups: the table is that of one namespace, and an unmount changes only what lies at or below its point.
- The startup sweep of all staging directories (sweepStagedBinds), which does not take the lock.
- The chmod, ancestry and symlink checks of ensureDirLocked and the advice texts: one yes or no.
- Eviction of image records, classification of snapshot keys and heal reports; BuildKit's prune and rebuild succeed or fail, and what they do is not modelled.
- Server.Rebuild and Server.Close of pkg/buildkit/server.go.
- The regular-expression engine: each signature is its tail-anchored shape.
- BuildScope.RecordNamesJob: lower-casing is that of ASCII letters, the alphabet of container IDs.
- BuildSweep.LostOnlyIfMissed: takes it that job IDs are not reused, as the comment on DeadBuildRecords has it.
- Parsing of modules.dep, downloads, gzip; Cpio.RoundTrip is for sizes and modes below 2^32 and names without a zero byte, which is all the format can hold.
- logicalPath and other diagnostic strings; the command line, configuration, proxies, runtimes and the rest of the Docker API.
