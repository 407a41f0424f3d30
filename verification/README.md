# The estate module's algorithms, proved

The estate's PowerShell module (`Xmip/`) keeps one repository's worth of tools: it builds and shares
the operator module between sessions, orders what a change lands, draws the map of the estate, reads
the manifest, and moves submodules. This project models five of its components in Dafny and proves
what they promise, over all inputs and, for the shared build directory, over all interleavings.

`dafny verify dfyconfig.toml` checks everything. Each file is one module of the same name.

**The operator-module build cache** (`BuildCache`, `BuildCacheSafety`, `BuildCacheProgress`,
`BuildCacheRivals`, `BuildCacheSweep`, `BuildCacheReuse`). Any number of sessions share one directory
and hold no lock. Every rename, write, test and delete is one atomic action of one session; a run is
any sequence of such actions, and a session may end between any two of them. A directory carries the identity it was created with, so a theorem can say "the very directory that was
imported". The file system is taken to refuse a rename of a directory in which a file is open, and a
rename onto a name that exists: the code's two `catch` blocks rely on exactly that.

**Dependency order and consumers** (`ModuleOrder`, `ModuleConsumer`, `ExtensionPackage`,
`DeepestOwner`). The layered sort is related to chains of dependencies, the consumer fixpoint to paths
of uses, and the extension's worklist to reachability in the lock file.

**The estate map** (`MapWeight`, `MountTree`, `MapTree`, `MapWords`, `MapDrawing`, `MapLine`). Files are charged to
mounts, mounts make a tree of objects, the tree is drawn and prose is wrapped. The drawing has a
reader, by which the counts drawn are followed back to the files, and the wrapping has the set of all
layouts to be measured against.

**The manifest's tree** (`Estate`, `EstatePosition`, `EstateFacts`, `ManifestCheck`, `StrayTechnology`,
`StrayMount`). A tree of tables is flattened to hyphen-joined names although keys may hold hyphens; the readers of the
flat list get the position back from the first dependency.

**Links and parsers** (`SubmoduleLink`, `SubmoduleText`, `SubmoduleTree`, `StatusLine`, `RepositoryStatus`,
`WebArgument`).
Two mutually pointing links over a moved subtree, git's "Porcelain Format Version 2" with its quoting
of paths, and the arguments a web host is started with.

`Wrappers`, `Text` and `Sorting` hold what they share: splitting and joining, trimming, decimals, sorting.

Strings are sequences of characters, compared exactly. A `method` is given where the script loops or
changes an object, and is proved against a function or a property; lemmas then say what that function
means.

## What the code does that its documentation does not say

- A session whose compile succeeded has imported its build or is sure to **if and only if** all sessions
  work for one key: then it always has a next action of its own, every such action brings it nearer,
  none fails, and its own actions alone lead to the import. With two keys, another key's sweep may take
  the build of a session that has compiled and published away before that session imports, and then
  nothing it does next leads to an import (`BuildersImportExactlyUnderOneKey`, `RivalKeysBuildInVain`).
  The sweep's comment speaks of builds "no session holds"; a build about to be imported is not held yet.
- A `.build-` directory whose session was killed is never removed by anybody (`AbandonedStagingStays`).
- A mounted repository with no source file carries no count, and so is drawn with the trailing slash
  that the drawing's comment reserves for directories (`MountWithoutFilesIsSilent`).
- In an accepted estate Parent and Leaf are recovered for every repository except, exactly, a provider or
  module that declares itself a Technology (`AcceptedPositionIsReadBack`), and the list of built
  technologies gives the last key as Leaf except, exactly, for a module in the technology role whose first
  dependency's name is not as long as its provider's (`AcceptedBuiltLeaf`). One accepted estate shows both:
  its module core.log is read as the technology re-log of xmip-a (`StrayTechnology.ModuleReadAsTechnology`).
- The collision check keeps a child table from being read as a fact of its parent if and only if no
  child is named `mount` or `optional`, two keys that are read but are not among its metadata keys
  (`ChildrenAreNotFacts`). In one accepted estate the repository core is said to be mounted at the text
  of its child table's type (`StrayMount.ChildReadAsMount`).
- A git directory's worktree line leads back to the working tree if and only if the git directory's
  path has no empty, `.` or `..` part: the climbs are counted by slashes (`WorktreeLeadsBack`,
  `DoubledSlashLeadsAstray`).
- The snapshots a host is started with are read back from the line their arguments are joined to if and
  only if no path holds a blank or an outer quote, because the launch joins them without quoting
  (`PrintedSnapshotsAreReadBackExactly`, `BlankCutsSnapshot`). The line is taken as joined; a system that
  splits it into arguments and shows those again may change more.
- A changed path is read back if and only if it holds no character git calls unusual: a control, a
  quote, a backslash or, core.quotePath being on as it is by default, anything beyond ASCII. git escapes
  such a path between quotes, and the reader takes off the quotes and leaves the escapes
  (`StatusIsReadBack`, `QuoteIsLost`, `AccentIsLost`).
- A lock whose top entry states no `dependencies`, or no `devDependencies` where they are asked for,
  stops the closure: strict mode refuses to read the missing table's keys (`ExtensionPackage.Fault`).

## Model

| member | source | states |
|---|---|---|
| BuildCache.StepKeepsInv | Xmip/Import-XmipOperatorModule.ps1:146-383 | every action of every session keeps the invariant: plain names hold whole, root-pointed builds; staging directories belong to one session each; what is probed or loaded is still under its key |
| BuildCache.RunKeepsInv | Xmip/Import-XmipOperatorModule.ps1:146-383 | the invariant holds after every interleaving of any number of sessions |
| BuildCache.TouchKeepsDirectory | Xmip/Import-XmipOperatorModule.ps1:274-302 | whatever a session does to the shared directory, finished builds stay the only thing under plain names and no directory is under two names |
| BuildCache.TouchLeavesAlone | Xmip/Import-XmipOperatorModule.ps1:358-379 | a directory another session is staging, or one whose module is open, is untouched by a session's action |
| BuildCache.TouchKeepsOther | Xmip/Import-XmipOperatorModule.ps1:245-383 | non-interference: what one session relies on at its place survives any other session's action |
| BuildCacheSafety.BinaryMeansFinished | Xmip/Import-XmipOperatorModule.ps1:132-143 | in every reachable state, finding the binary under a key is the same as the build being finished, and an unfinished directory is a `.build-` or a `.gone-` |
| BuildCacheSafety.ImportedBuildStays | Xmip/Import-XmipOperatorModule.ps1:336-379 | after any further actions of any sessions, the very directory a living session imported is unchanged under its key |
| BuildCacheSafety.LateImportStopsTheRename | Xmip/Import-XmipOperatorModule.ps1:366-379 | an import that falls between another session's held-check and its rename makes the rename fail and leaves the directory alone |
| BuildCacheSafety.OnlyARivalRemoves | Xmip/Import-XmipOperatorModule.ps1:358-382 | a finished build changes only by the rename of a session that works for another key, and only while nobody has it open |
| BuildCacheSafety.StagingIsPrivate | Xmip/Import-XmipOperatorModule.ps1:361-363 | no action of another session adds, changes or removes a session's `.build-` directory |
| BuildCacheSafety.AbandonedStagingStays | Xmip/Import-XmipOperatorModule.ps1:361-363 | a killed session's `.build-` directory is unchanged after any later run of any sessions |
| BuildCacheSafety.OneKeyStep | Xmip/Import-XmipOperatorModule.ps1:194-201 | with one key, no action changes the finished build, and a session past its compile never fails by its own action; that the build there is the one used is LookingFinds and BuiltOnceUsedAgain |
| BuildCacheSafety.OneKeyOneBuild | Xmip/Import-XmipOperatorModule.ps1:290-302 | with one key the first finished build is never replaced, and any two imports, at whatever times, are of that one directory, whoever won the rename |
| BuildCacheReuse.LookingFinds | Xmip/Import-XmipOperatorModule.ps1:196-198 | a session goes to import exactly where its key's finished build is there, and to compile, under a new identity, exactly where it is not; looking changes nothing |
| BuildCacheReuse.ImportingTakes | Xmip/Import-XmipOperatorModule.ps1:200-201 | the import takes the finished build that is there unless a sweep is probing it just then, and fails otherwise |
| BuildCacheReuse.BuiltOnceUsedAgain | Xmip/Import-XmipOperatorModule.ps1:194-201 | with the finished build there and nobody probing it, a session that begins imports that very build by looking and importing alone: nothing is compiled and the directory stays as it was |
| BuildCacheReuse.FirstToPublishWins | Xmip/Import-XmipOperatorModule.ps1:290-294 | a finished compile is put under its key whole where no build is, and discarded, the one there untouched, where one is |
| BuildCacheReuse.LookingAgainFinds | Xmip/Import-XmipOperatorModule.ps1:296-302 | after a refused publish the winner's build is used, and the session fails exactly where there is none |
| BuildCacheReuse.FailedCompileNeverImports | Xmip/Import-XmipOperatorModule.ps1:282-286 | a session whose compile failed only empties its own directory, fails or is killed |
| BuildCacheReuse.OnlyEmptyVanishes | Xmip/Import-XmipOperatorModule.ps1:281-382 | no action of any session makes a directory vanish that has a file in it |
| BuildCacheReuse.LeftoversAreRemoved | Xmip/Import-XmipOperatorModule.ps1:365-381 | a sweep that meets a `.gone-` directory takes up its removal and can end it, nothing else being touched |
| BuildCacheReuse.DiscardedIsRemoved | Xmip/Import-XmipOperatorModule.ps1:282-294 | a session can take the build it is discarding away whole, nothing else being touched |
| BuildCacheReuse.OpenBuildIsPassedOver | Xmip/Import-XmipOperatorModule.ps1:365-371 | the sweep passes a build of another key over exactly where somebody has it open, and goes on to rename any other |
| BuildCacheReuse.FreeBuildIsTaken | Xmip/Import-XmipOperatorModule.ps1:370-381 | renaming a build nobody has open takes it out of its key unchanged, and leads to its removal |
| BuildCacheSweep.SweeperKeeps | Xmip/Import-XmipOperatorModule.ps1:359-382 | the sweep's own action passes over no build but its own, a held one, one without a binary and the one at its rename |
| BuildCacheSweep.SoloSweepLeavesOnlyHeld | Xmip/Import-XmipOperatorModule.ps1:336-383 | an undisturbed sweep ends with no build of another key left but those another session has open |
| BuildCacheSweep.SweepLeavesOnlySpared | Xmip/Import-XmipOperatorModule.ps1:336-383 | among any other sessions' actions: a build of another key still there when a sweep ends was, at some moment of that sweep, open to another session, or published, or refused its rename |
| BuildCacheRivals.RivalKeysBuildInVain | Xmip/Import-XmipOperatorModule.ps1:290-302 | with any two keys some run has a session finish its compile and publish, and leaves it about to import with no way of its own to the import |
| BuildCacheProgress.ForwardIsEnabled | Xmip/Import-XmipOperatorModule.ps1:288-302 | a session past its compile always has a next action, whatever the other sessions have done |
| BuildCacheProgress.ForwardComesNearer | Xmip/Import-XmipOperatorModule.ps1:288-383 | each such action strictly lowers a rank of the stages and the names still to be swept, so the build, the sweep and the import come to an end |
| BuildCacheProgress.OneKeyCanImport | Xmip/Import-XmipOperatorModule.ps1:194-201 | with one key a session past its compile has a run of its own actions that ends with the key's finished build, the very directory there, imported |
| BuildCacheProgress.OnItsWay | Xmip/Import-XmipOperatorModule.ps1:194-201 | with one key, after any interleaving a living session past its compile has imported the key's build, or is strictly nearer if it acted and exactly where it was if it did not |
| BuildCacheProgress.OneKeyWillImport | Xmip/Import-XmipOperatorModule.ps1:290-302 | with one key, in every reachable state a session past its compile is sure to import: it can, it has an action, and every action it has brings it nearer without failing |
| BuildCacheProgress.StrandedCannotImport | Xmip/Import-XmipOperatorModule.ps1:200-201 | a session about to import a build that was swept away reaches no import by its own actions |
| BuildCacheProgress.BuiltIsPastCompile | Xmip/Import-XmipOperatorModule.ps1:279-302 | with one key, a session with a finished compile since it last began, and not killed since, is on its way past the compile or has loaded its build |
| BuildCacheProgress.OneKeyBuilderImports | Xmip/Import-XmipOperatorModule.ps1:290-302 | with one key, in every reachable state such a session has imported its key's build or is sure to |
| BuildCacheRivals.BuildersImportExactlyUnderOneKey | Xmip/Import-XmipOperatorModule.ps1:194-201 | every session with a finished compile since it last began, and not killed since, has imported its build or is sure to, in every interleaving, if and only if all keys are the same |
| ModuleOrder.Sort | Xmip/Get-XmipDeclaredModule.ps1:327-378 | where a module builds on another whose package its build names, the last given to claim that package: refuses exactly when this has a cycle, naming exactly the modules that reach one; otherwise a permutation, dependencies first, round by round of longest chain in input order |
| ModuleOrder.PackagesAreProvided | Xmip/Get-XmipDeclaredModule.ps1:330-340 | the table has exactly the packages that some given module has, each with the last module to claim it, and none for a module without one |
| ModuleOrder.NeedsIsBuildsOn | Xmip/Get-XmipDeclaredModule.ps1:358-364 | what the table and the needs look up is exactly that one module's build names the package another provides |
| ModuleOrder.Remove | Xmip/Get-XmipDeclaredModule.ps1:374 | List.Remove takes the first occurrence and no other |
| ModuleOrder.WithoutReady | Xmip/Get-XmipDeclaredModule.ps1:372-375 | removing a round's ready modules one by one leaves exactly the blocked ones, in order |
| ModuleOrder.WaitsByChain | Xmip/Get-XmipDeclaredModule.ps1:345-376 | a module still waits after n rounds exactly when a chain of n dependencies starts at it |
| ModuleOrder.StuckReachesCycle | Xmip/Get-XmipDeclaredModule.ps1:368-370 | when a round places nothing, the waiting modules are exactly those from which a cycle is reachable |
| ModuleOrder.StuckIsCycle | Xmip/Get-XmipDeclaredModule.ps1:368-370 | a round that places nothing means there is a cycle, and the message lists the modules reaching one in input order |
| ModuleOrder.AfterKeepsOrder | Xmip/Get-XmipDeclaredModule.ps1:346-366 | round n places exactly the modules whose longest dependency chain is n, in the order they were given |
| ModuleOrder.PlacedIsPermutation | Xmip/Get-XmipDeclaredModule.ps1:372-375 | after every round, placed and waiting together are the given modules, counted with multiplicity |
| ModuleOrder.PlacedAfterNeeds | Xmip/Get-XmipDeclaredModule.ps1:358-364 | whatever a placed module needs was placed before it and waits no more |
| ModuleOrder.DoneIsOrdered | Xmip/Get-XmipDeclaredModule.ps1:345-378 | when nothing waits there is no cycle and the order is a permutation with dependencies first |
| ModuleConsumer.Consumers | Xmip/Get-XmipDeclaredModule.ps1:225-293 | for any order the table is walked in: without duplicates, exactly the declared modules outside the given ones that reach them by uses; with the given ones, closed under "is used by" |
| ModuleConsumer.Pass | Xmip/Get-XmipDeclaredModule.ps1:256-290 | one pass adds only modules that reach the given ones, and a pass that adds none has found every user |
| ModuleConsumer.ReachGiven | Xmip/Get-XmipDeclaredModule.ps1:242-250 | the reached things start as the paths and packages of the given modules, declared or not |
| ModuleConsumer.OwnersOf | Xmip/Get-XmipDeclaredModule.ps1:263-275 | the owners are the paths of exactly the modules that hold a referenced path |
| ModuleConsumer.UsesMeansConsumes | Xmip/Get-XmipDeclaredModule.ps1:277-278 | using something reached is the same as consuming one of the modules it was reached through |
| ModuleConsumer.AllFound | Xmip/Get-XmipDeclaredModule.ps1:253-291 | when a pass finds nothing more, the consumers are exactly the declared modules that reach a given one |
| ModuleConsumer.ConsumesByPackageOrFolder | Xmip/Get-XmipDeclaredModule.ps1:230-278 | with the names sorted longest first, an edge is a needed package or a referenced path whose innermost declared module it is, the two never mistaken for each other |
| DeepestOwner.FileHasDeepestOwner | Xmip/Add-XmipMapMount.ps1:65-87 | going up from a file's parts, the first mount met is the deepest mount above the file |
| DeepestOwner.DeepestIsUnique | Xmip/Add-XmipMapMount.ps1:68-70 | a path has one deepest mount |
| DeepestOwner.ResolveOwner | Xmip/Get-XmipRepositoryUse.ps1:196-212 | the walk by directory names gives the repository of the first mount met, and empty where there is none; it terminates |
| DeepestOwner.WalkAgrees | Xmip/Get-XmipRepositoryUse.ps1:196-212 | that walk, started at a file's folder, ends at the very mount the map charges the file to |
| DeepestOwner.DirectoryNameAtTheTop | Xmip/Get-XmipRepositoryUse.ps1:203-209 | above what lies in the root is the root, and above that and above a bare name there is nothing |
| DeepestOwner.ScanFinds | Xmip/Get-XmipDeclaredModule.ps1:230-275 | the longest-first scan with its break finds the innermost folder that is the referenced path or holds it, whatever the path |
| DeepestOwner.ScanAgreesOffMounts | Xmip/Get-XmipDeclaredModule.ps1:230-275 | the scan agrees with the other two if and only if the path is not itself a mount |
| DeepestOwner.FindFolder | Xmip/Get-XmipDeclaredModule.ps1:265-273 | the indexed loop with its break is that scan |
| ExtensionPackage.Packages | Xmip/Build-XmipExtension.ps1:54-98 | exactly the entries reachable from the wanted packages under nested-then-top; fails exactly when a reachable entry, or a table read without asking, is missing; terminates on cyclic locks |
| ExtensionPackage.Wanted | Xmip/Build-XmipExtension.ps1:54-60 | the runtime dependencies, and unless Runtime those development dependencies that begin with `@types/`; each missing table stops it exactly where it is read |
| ExtensionPackage.NextOf | Xmip/Build-XmipExtension.ps1:79-95 | the packages enqueued for one are exactly those it depends on, a nested copy before the top one |
| ExtensionPackage.ClosedHoldsNeeded | Xmip/Build-XmipExtension.ps1:66-96 | a set with the wanted packages and whatever its members depend on holds all that is needed |
| ExtensionPackage.NeededGrows | Xmip/Build-XmipExtension.ps1:56-60 | asking for more packages only ever needs more packages |
| ExtensionPackage.RestoreThenCarry | Xmip/Build-XmipExtension.ps1:102-122 | the runtime closure that is copied is part of the full closure that is restored, and fails only if the full one does |
| MapLine.FormatMapLine | Xmip/New-XmipEstateMap.ps1:71-93 | the loop over words gives the lines whose properties the next rows state, for every text |
| MapLine.LinesPrintGreedy | Xmip/New-XmipEstateMap.ps1:71-93 | for single-spaced words the lines are the greedy layout printed, each later line behind its indent |
| MapLine.GreedyLays | Xmip/New-XmipEstateMap.ps1:74-87 | the greedy layout holds all the words in order, and every line of several words is within the width |
| MapLine.FillIsLongest | Xmip/New-XmipEstateMap.ps1:80-83 | a line takes the longest beginning of the words that fits |
| MapLine.GreedyIsFewest | Xmip/New-XmipEstateMap.ps1:80-87 | no layout of the same words has fewer lines |
| MapLine.FewestLines | Xmip/New-XmipEstateMap.ps1:71-93 | the lines the function returns are as few as any layout's |
| MapLine.LongLineIsOneWord | Xmip/New-XmipEstateMap.ps1:80-87 | a line of more than 78 characters is a single word behind its indent |
| MapLine.LinesAreFull | Xmip/New-XmipEstateMap.ps1:80-87 | with the first word of the next line, a line would have passed 78 characters |
| MapLine.ShortTextIsOneLine | Xmip/New-XmipEstateMap.ps1:71-93 | a text of at most 78 characters that begins with no space is one line, doubled spaces kept |
| MapLine.UnwrapOfLines | Xmip/New-XmipEstateMap.ps1:71-93 | removing each later line's indent and joining with one space gives the text back |
| MapWeight.Weigh | Xmip/Add-XmipMapMount.ps1:63-90 | every mount's count per language is the sum over exactly the files whose deepest mount it is, and all counts add up to the lines of all files under any mount |
| MapWeight.FindMount | Xmip/Add-XmipMapMount.ps1:66-87 | the loop from the last part up is the deepest-mount search |
| MapWeight.Total | Xmip/Add-XmipMapMount.ps1:166-170 | the sum over a table's values does not depend on the order they are taken in |
| MapWeight.StatedWhereCharged | Xmip/Add-XmipMapMount.ps1:77-85 | a language has a count at a mount exactly where some file in it is charged there, an empty file included |
| MapWeight.WeighedWhereCharged | Xmip/Add-XmipMapMount.ps1:65-90 | a mount has weight exactly where some file of the source is charged to it |
| MapWeight.ChargeWeighs | Xmip/Add-XmipMapMount.ps1:77-85 | charging one more file keeps every mount's count per language right |
| MapWeight.ChargeAdds | Xmip/Add-XmipMapMount.ps1:85 | charging a file adds its lines to the grand total once |
| MountTree.Tree.AddMount | Xmip/Add-XmipMapMount.ps1:155-176 | makes exactly the missing levels, puts the sum and the languages on the mount's own node, returns that node and changes nothing else in the tree |
| MountTree.Tree.Descend | Xmip/Add-XmipMapMount.ps1:157-163 | one step leads to the child of that name, made silent if it was missing; every other place says what it said |
| MountTree.Tree.PlaceAll | Xmip/New-XmipMapTree.ps1:271-281 | every mount is placed; each weighed one carries its total, no other node carries a count, and the counts add up to the totals |
| MountTree.MountOfPlace | Xmip/Add-XmipMapMount.ps1:157-163 | two mounts are never at one node: the path is got back from the place |
| MountTree.MatchingSums | Xmip/New-XmipMapTree.ps1:292-298 | counts on the nodes and totals by mount have one sum |
| MountTree.InsertCounts | Xmip/Add-XmipMapMount.ps1:165-174 | inserting changes the count of the mount's own node and of no level above it |
| MountTree.GrandTotal | Xmip/New-XmipMapTree.ps1:292-298 | the printed total is the sum of all mounts' totals |
| MountTree.WeighTree | Xmip/New-XmipMapTree.ps1:266-298 | the counts on all nodes, the printed total and the lines of all files under any mount are one number, and a mount's node is without a count exactly when no file is charged to it |
| MountTree.MountWithoutFilesIsSilent | Xmip/New-XmipMapTree.ps1:271-281 | a placed mount carries no count exactly when no file is charged to it |
| Sorting.SortedIsInOrder | Xmip/New-XmipMapTree.ps1:56-59 | sorting by an order puts a list in it and loses and adds nothing |
| MapTree.SiblingsAreHeaviestFirst | Xmip/New-XmipMapTree.ps1:56-59 | siblings are drawn once each; no later one has more lines, as many lines are in the dictionary order of the names, and what has no count comes after all that have one |
| MapTree.ShapesAreRanked | Xmip/New-XmipMapTree.ps1:56-86 | that order holds at every level of what is drawn |
| Text.AtMostIsDictionary | Xmip/New-XmipMapTree.ps1:57-58 | the order of names is the dictionary's: one begins the other or has the smaller character where they first differ |
| MapTree.DrawBranch | Xmip/New-XmipMapTree.ps1:56-88 | the loop over the children gives the lines that DrawingIsReadBack reads, whose order SiblingsAreHeaviestFirst states and whose corners, columns and words the rows of MapWords do |
| MapTree.NodeLineIsRead | Xmip/New-XmipMapTree.ps1:65-83 | a node's line says its depth, its name and its count, or that it has none, whatever the padding and the languages |
| MapTree.AbsentLinesReadAsNothing | Xmip/New-XmipMapTree.ps1:218-232 | no declared-not-built line is mistaken for a node, however its names wrap |
| MapTree.RebuildOfEntries | Xmip/New-XmipMapTree.ps1:63-86 | a forest is got back from its nodes' depths, names and counts in drawn order |
| MapTree.BranchIsRead | Xmip/New-XmipMapTree.ps1:63-88 | a drawn branch reads as its nodes in pre-order with their depths |
| MapTree.DrawingIsReadBack | Xmip/New-XmipMapTree.ps1:56-88 | the reader gets the tree back from the drawing: at every level each child once, the heaviest first |
| MapTree.DrawingDeterminesTree | Xmip/New-XmipMapTree.ps1:56-88 | two trees drawn alike have the same names, counts and structure |
| MapTree.EveryNodeIsDrawnOnce | Xmip/New-XmipMapTree.ps1:63-86 | as many lines name a node as there are nodes |
| MapWords.CornerClosesBranch | Xmip/New-XmipMapTree.ps1:63-86 | a child's line has the closing corner, and blanks under it, exactly where neither a sibling nor a declared-not-built line follows |
| MapWords.CountEndsAtColumn | Xmip/New-XmipMapTree.ps1:134-143 | a count ends at column 52, or one space behind a name too long for that, and the languages come after it |
| MapWords.LanguagesAreRead | Xmip/New-XmipMapTree.ps1:172-186 | two languages or more are read back with their lines from behind the count, and one is not named |
| MapWords.AbsentNamesAreRead | Xmip/New-XmipMapTree.ps1:218-232 | the count of declared-not-built names is stated, and the names are read back from the wrapped lines, each once in dictionary order |
| MapDrawing.ListSpoken | Xmip/New-XmipMapTree.ps1:172-180 | every language of a repository is listed once with its lines, the largest first |
| MapDrawing.Picture | Xmip/New-XmipMapTree.ps1:56-88 | walking the tree of objects gives the tree drawn: each place's count, its languages with their lines, its declared-not-built names, and a child for every place just below it, each once |
| MapDrawing.DepictedCodes | Xmip/Add-XmipMapMount.ps1:155-176 | the counts of a drawn tree add up to the counts at and under the place it shows |
| MapDrawing.DrawingAddsUp | Xmip/New-XmipMapTree.ps1:56-88 | the counts read off a drawing add up to those of the nodes drawn |
| MapDrawing.DrawnCountsAddUp | Xmip/New-XmipMapTree.ps1:271-309 | the counts read off the drawing of the tree of mounts add up to the counts on all its nodes |
| MapDrawing.DrawMap | Xmip/New-XmipMapTree.ps1:264-309 | from mounts and source files to lines and total: the lines are the drawing of a tree with a place for every mount, its count and languages what the files charged to it weigh; the counts read off the lines add up to the total, which is the lines of all files under any mount, and at every level the heaviest is read first |
| Estate.Expand | Xmip/Expand-XmipEstate.ps1:344-383 | the recursion appends to the shared list exactly what the flattening gives, or stops with the same fault |
| Estate.ExpandManifest | Xmip/Get-XmipManifest.ps1:37-72 | the manifest's repositories are the flattened `xmip` table, refused where it is missing or yields none |
| EstatePosition.FlattenIsPlaces | Xmip/Expand-XmipEstate.ps1:344-383 | for the estate's top and every table in it: flattening succeeds exactly when every table states a maturity and no metadata key, at the top either, is a table, and gives one entry per table in pre-order |
| EstatePosition.PlacesLead | Xmip/Expand-XmipEstate.ps1:367-382 | the places visited are exactly the tables of the tree, each once |
| EstatePosition.ParentBeforeChild | Xmip/Expand-XmipEstate.ps1:362-382 | a table's parent table is listed before it |
| EstatePosition.FlattenedAt | Xmip/Expand-XmipEstate.ps1:344-383 | entry i of the list is the repository of table i in pre-order |
| EstateFacts.FlattenedIsSound | Xmip/Expand-XmipEstate.ps1:222-226 | flattening succeeds exactly where every table states a maturity that is not blank and none, the top included, has a table under one of the six metadata keys |
| EstateFacts.CollisionIsNamed | Xmip/Expand-XmipEstate.ps1:301-314 | the refusal names the first such key and where it is |
| EstateFacts.LittleStatedHigh | Xmip/Expand-XmipEstate.ps1:254-280 | a provider or module that states no more than its maturity is a common capability of Capabilities with no dependency, mount or language, described as a module |
| EstateFacts.LittleStatedDeep | Xmip/Expand-XmipEstate.ps1:227-280 | what is three levels down and states no more implements the table it is in and depends on it alone, in the domain Technology |
| EstateFacts.StatedStands | Xmip/Expand-XmipEstate.ps1:254-280 | what a table states stands, but for the domain and role of what is three levels down or more |
| EstateFacts.FlattenedInPathOrder | Xmip/Expand-XmipEstate.ps1:367-382 | the list is in the order of paths: a table before what is in it, and tables side by side in the dictionary order of their keys |
| EstatePosition.ParentIsFirstDependency | Xmip/Expand-XmipEstate.ps1:217-238 | at depth three and more, the first dependency is the name of the tree parent, which is listed earlier and whose name the repository's extends by its key |
| EstatePosition.NameExtendsParent | Xmip/Expand-XmipEstate.ps1:217-233 | a name is its parent's, a hyphen and the last key, hyphens in keys or not |
| EstatePosition.ChildrenAreNotFacts | Xmip/Expand-XmipEstate.ps1:284-315 | child tables change nothing of what a table says of itself if and only if none is named mount or optional |
| StrayMount.ChildReadAsMount | Xmip/Expand-XmipEstate.ps1:278-280 | an estate that flattens and is accepted, and whose repository core is given its own child's table as its mount |
| EstatePosition.PositionIsReadBack | Xmip/Get-XmipEstateRepository.ps1:68-78 | Parent and Leaf from a flat entry are the tree's parent and last key, except exactly for a provider or module declaring itself a Technology |
| EstatePosition.EstateIsReadBack | Xmip/Get-XmipEstateRepository.ps1:68-78 | the same of every entry of an estate's flattened list, whose place is its table's |
| StrayTechnology.ModuleReadAsTechnology | Xmip/Get-XmipEstateRepository.ps1:68-78 | an estate that flattens and is accepted, and whose module core.log both readers give the leaf re-log, and the one the parent xmip-a |
| StrayTechnology.RootIsAccepted | Xmip/Get-XmipManifest.ps1:249-295 | that estate passes the manifest's checks |
| EstatePosition.BuiltLeafIsLastKey | Xmip/Get-XmipBuiltTechnology.ps1:57-66 | the leaf past the first dependency's name is the last key exactly at depth three and below, or where that dependency is as long as the tree parent's name |
| ManifestCheck.AcceptedPositionIsReadBack | Xmip/Get-XmipEstateRepository.ps1:68-78 | in an accepted estate every entry's position is read back, except exactly a provider's or module's that declares itself a Technology |
| ManifestCheck.AcceptedBuiltLeaf | Xmip/Get-XmipBuiltTechnology.ps1:57-112 | in an accepted estate a built technology's Leaf is its last key exactly at depth three and below, or for a module whose first dependency's name is as long as its provider's |
| ManifestCheck.CheckEntry | Xmip/Get-XmipManifest.ps1:185-230 | an entry passes exactly when its name, description, crate and maturity are well formed, as FormIsGood spells out, and every dependency is known and not itself |
| ManifestCheck.FormIsGood | Xmip/Get-XmipManifest.ps1:187-216 | the checks before the dependencies pass exactly where the name is `xmip-` and words, the description not blank, the crate words and, if it must be, the name, and the maturity one of the ten |
| ManifestCheck.HyphenatedIsWords | Xmip/Get-XmipManifest.ps1:194-206 | the pattern takes exactly the texts of small letters, digits and hyphens in which every hyphen stands between two of the others |
| ManifestCheck.TestManifest | Xmip/Get-XmipManifest.ps1:249-295 | a manifest passes exactly when it has an owner and repositories, no name twice, and every entry passes |
| ManifestCheck.NameIsValidByKeys | Xmip/Get-XmipManifest.ps1:194-196 | a derived name is valid exactly when each key of its path is hyphenated words |
| ManifestCheck.HyphensCollide | Xmip/Expand-XmipEstate.ps1:217 | two places of a tree can have one name, so names alone do not give positions |
| ManifestCheck.AcceptedNamesIdentifyTables | Xmip/Get-XmipManifest.ps1:262-270 | in an accepted estate a name belongs to one table |
| ManifestCheck.DerivedDependencyResolves | Xmip/Get-XmipManifest.ps1:222-230 | the dependency derived from the tree is always a known name and never the repository itself |
| ManifestCheck.ByNameFinds | Xmip/Get-XmipBuiltTechnology.ps1:50-56 | with unique names the table by name finds every repository |
| ManifestCheck.BuiltIsJudgedByTreeParent | Xmip/Get-XmipBuiltTechnology.ps1:86-112 | in an accepted estate a technology is judged by the facts of its parent in the tree |
| ManifestCheck.BuiltByFirstDependency | Xmip/Get-XmipBuiltTechnology.ps1:90-112 | of what says it is built, exactly that is a built technology whose first dependency is known, no library and of no language of its own; one that names no dependency throws |
| SubmoduleTree.GitFiles.RepairPointer | Xmip/Move-XmipSubmodule.ps1:148-168 | rewrites the tree's own pointer and its git directory's worktree line as RepairSays spells out, or nothing where the pointer leads elsewhere, which GuardIsNamesGit tells apart |
| SubmoduleTree.GitFiles.RepairLink | Xmip/Move-XmipSubmodule.ps1:73-85 | repairs the moved tree and those found beneath it in order; where trees have git directories of their own, every tree at or below the new path whose pointer led into the root's .git/ then says where it is, as does its config, their links meet, and a second repair changes nothing |
| SubmoduleLink.PointerKeepsInner | Xmip/Move-XmipSubmodule.ps1:148-157 | a rewritten pointer names the same git directory, however many climbs the old one had |
| SubmoduleLink.RewriteTwice | Xmip/Move-XmipSubmodule.ps1:161-167 | a rewritten config with a worktree line names the target, and rewriting it again changes nothing |
| SubmoduleLink.PointerLeadsToGit | Xmip/Move-XmipSubmodule.ps1:156-157 | following the written link from the tree's folder arrives at the git directory |
| SubmoduleLink.WorktreeLeadsBack | Xmip/Move-XmipSubmodule.ps1:163-166 | following the written worktree line from the git directory arrives at the tree, if and only if the git directory's path is plain |
| SubmoduleLink.DoubledSlashLeadsAstray | Xmip/Move-XmipSubmodule.ps1:163-166 | for a git directory spelled with a doubled slash the written line leads elsewhere |
| SubmoduleLink.RepairSettles | Xmip/Move-XmipSubmodule.ps1:148-168 | after its repair a tree is settled and names the git directory it named before |
| SubmoduleLink.RepairLeavesOthers | Xmip/Move-XmipSubmodule.ps1:148-168 | repairing one tree leaves another with its own git directory as settled as it was |
| SubmoduleLink.RepairAgainChangesNothing | Xmip/Move-XmipSubmodule.ps1:148-168 | repairing a list of different trees, one after another, settles every one, and repairing them again changes no file |
| SubmoduleLink.RepairTouchesNoOther | Xmip/Move-XmipSubmodule.ps1:73-85 | no other tree's pointer changes, and no file is made or removed |
| SubmoduleLink.SettledLinksMeet | Xmip/Move-XmipSubmodule.ps1:156-168 | a settled tree's pointer leads to its git directory, and the worktree line back exactly when that directory's path is plain |
| SubmoduleText.GuardIsNamesGit | Xmip/Move-XmipSubmodule.ps1:149-154 | the repair takes exactly the pointers that spell a climb of any height and a path that begins with .git/, white space aside, and reads that path |
| SubmoduleText.PrintedIsTaken | Xmip/Move-XmipSubmodule.ps1:149-154 | a pointer as git prints it is taken exactly where the path behind its climb begins with .git/ |
| SubmoduleText.ConfigIsRewritten | Xmip/Move-XmipSubmodule.ps1:161-167 | in a config that names a working tree, its path is replaced and no other character |
| SubmoduleText.RepairSays | Xmip/Move-XmipSubmodule.ps1:156-167 | the repaired pointer climbs once for every level of the tree's path and then names the git directory, and its config climbs once for every level of that and then names the tree |
| SubmoduleText.RepairedAllSays | Xmip/Move-XmipSubmodule.ps1:73-85 | after the repair of a list of trees with git directories of their own, that is so of every one whose pointer led into the root's .git/ |
| SubmoduleText.CoreIsRepaired | Xmip/Move-XmipSubmodule.ps1:148-168 | the files of a submodule core moved to module/core, before and after, letter by letter |
| SubmoduleText.RepairedLinksMeet | Xmip/Move-XmipSubmodule.ps1:148-168 | after repairing a list of different trees, each whose pointer led into the root's .git/, to a config with a worktree line, has its two links meeting |
| SubmoduleTree.NestedIsEveryWalkedTree | Xmip/Move-XmipSubmodule.ps1:108-118 | the trees found are exactly those beneath with a .git and no skipped directory on the way |
| SubmoduleTree.FoundOnce | Xmip/Move-XmipSubmodule.ps1:108-118 | no tree is found twice |
| SubmoduleTree.MovedIsAtOrBeneath | Xmip/Move-XmipSubmodule.ps1:73-85 | the trees repaired are exactly the moved one and those walked to beneath it whose .git is a file, each once, each plainly named |
| SubmoduleTree.MovedLinksMeet | Xmip/Move-XmipSubmodule.ps1:73-85 | after the subtree's repair every tree at or below the new path whose pointer spelled a path in the root's .git/ has the pointer and the config that say where it now is, and, where the config has a worktree line, both links lead to each other, the second exactly when the git directory is plainly named |
| SubmoduleTree.MovedStaysRepaired | Xmip/Move-XmipSubmodule.ps1:73-85 | a second repair of the subtree changes no file |
| StatusLine.TrackedIsRead | Xmip/Get-XmipStatus.ps1:342-346 | a tracked line of any kind is split where git joined it, spaces in the path kept |
| StatusLine.StatusIsReadBack | Xmip/Get-XmipStatus.ps1:333-354 | of every kind of line the state is what the short format shows, git's letters with a blank for every dot, and the path is got back if and only if nothing in it is unusual to git, which quotes and escapes any other |
| StatusLine.TrimUndoesQuoted | Xmip/Get-XmipStatus.ps1:353 | taking off the quotes undoes git's quoting exactly where there was none |
| StatusLine.QuoteIsLost | Xmip/Get-XmipStatus.ps1:338-353 | the new file a"b is listed under another name |
| StatusLine.AccentIsLost | Xmip/Get-XmipStatus.ps1:338-353 | a file named by one accented letter is listed as its two escaped bytes |
| StatusLine.DotOfUndot | Xmip/Get-XmipStatus.ps1:344 | a state holds no dot and is as long as what git printed, which can be told from it |
| StatusLine.UndotIsShort | Xmip/Get-XmipStatus.ps1:344 | letter by letter, a state has a blank where git printed a dot and git's letter everywhere else |
| StatusLine.EveryChangeIsListed | Xmip/Get-XmipStatus.ps1:255-264 | behind any headers every change is listed once, in order, with its own state, and with its own path exactly where nothing in it is unusual |
| RepositoryStatus.ReadStatus | Xmip/Get-XmipStatus.ps1:251-309 | the loop over the lines and the counts make the status the next rows are about, for every output of git |
| RepositoryStatus.BranchIsRead | Xmip/Get-XmipStatus.ps1:257-260 | the headers' facts are read back from the lines git prints of a branch |
| RepositoryStatus.DistanceIsRead | Xmip/Get-XmipStatus.ps1:271-274 | the distances ahead and behind are read back from the numbers git prints |
| RepositoryStatus.LastHeaderWins | Xmip/Get-XmipStatus.ps1:257-260 | a header adds its fact or replaces an earlier one of its key, and no other |
| RepositoryStatus.CutOffLineStops | Xmip/Get-XmipStatus.ps1:342-346 | a tracked line that is cut off before its state stops the whole status |
| RepositoryStatus.UntrackedAreCounted | Xmip/Get-XmipStatus.ps1:297 | the entries whose state says so are exactly the untracked ones |
| RepositoryStatus.PrintedStatusIsRead | Xmip/Get-XmipStatus.ps1:251-309 | from what git prints of a branch and its changes: the branch or the short commit, the upstream, both distances, an entry for every change with its state, and its path exactly where that is usual, and the Changed, Untracked and Clean counts |
| WebArgument.ValueIsRead | Xmip/Get-XmipOperationWeb.ps1:112-123 | a bare or quoted value is matched whole and its quotes taken off |
| WebArgument.EverySnapshotIsReadBack | Xmip/Get-XmipOperationWeb.ps1:112-123 | the snapshots are read back in order from a line holding their arguments, bare or quoted, whatever stands before and after |
| WebArgument.OneSnapshotIsReadPlainly | Xmip/Get-XmipOperationWeb.ps1:115-121 | a single snapshot is read by the reader that asks for the plain key |
| WebArgument.PlainReaderNeedsPlainKey | Xmip/Get-XmipOperationWeb.ps1:111-121 | the reader that asks for the plain key reads no indexed one |
| WebArgument.SnapshotsAreNumbered | Xmip/Get-XmipOperationWebSnapshotArgument.ps1:28-32 | of several snapshots each has one argument, its key numbered from zero in their order, and no two keys are the same |
| WebArgument.PrintedSnapshotsAreReadBackExactly | Xmip/Get-XmipOperationWebSnapshotArgument.ps1:28-32 | on the line the arguments are joined to, full paths are read back if and only if none holds a blank or an outer quote |
| WebArgument.BlankCutsSnapshot | Xmip/Get-XmipOperationWeb.ps1:112-123 | a single snapshot's path is cut short at its blank |

## Left out

- Names are compared exactly; the scripts' hashtables and operators ignore case.
- `Sort-Object` is modelled by character order, not by the user's culture; where the two orders differ, so do the printed orders.
- Line counts are unbounded naturals; the scripts sum in 32-bit integers.
- The build cache's key is an opaque value a session holds; how it is hashed from the sources, and the text test for `.build-` and `.gone-` in a name (a key holds neither), are not modelled.
- The identifiers of `.build-` and `.gone-` directories are fresh; two sessions drawing the same eight characters is not modelled.
- The build cache's session that already has the assembly in its process imports that one again; only sessions without it are modelled.
- A rename in the build cache is refused only for the causes named above, and in the sweep for any cause; a publish refused for another cause while no build is there is not modelled.
- BuildCacheRivals.BuildersImportExactlyUnderOneKey: that a session which can act is at some time scheduled, and that a removal's single files come to an end, are left to the operating system.
- MapLine.LinesPrintGreedy: for texts of nonempty single-spaced words; a text with leading or doubled spaces, as the declared-not-built names have, loses its leading blanks, and for it MapTree.AbsentLinesReadAsNothing states what the drawing needs.
- MapTree.DrawingIsReadBack: names with a space are drawn but not read back; the languages and the declared-not-built names are read by the readers of MapWords, for names without a space.
- MapTree.DrawBranch: draws a tree given as a value, which MapDrawing.Picture makes of MountTree's objects; the script draws the objects themselves.
- The names put under a parent as declared and not built are given to the drawing; how New-XmipMapTree collects them is not modelled, nor are the words above the tree.
- Languages with equal counts are drawn in the order given.
- ExtensionPackage.Packages: returns the closure as a set; the script returns the same names sorted.
- SubmoduleTree.GitFiles.RepairLink: the moving itself, the section names in .gitmodules and the estate's config, and Windows' refusals are not modelled; nor is a `$` in a path, which the replacement would read as a group.
- SubmoduleTree.MovedLinksMeet: for trees whose git directories are at places of their own, as git makes them, and directory names that differ within a directory and are neither empty nor dots nor hold a slash or a line feed; a config is looked up by the git directory as the pointer spells it.
- DeepestOwner.ResolveOwner: paths with forward slashes and a root of "/"; Windows drive roots are not modelled.
- ManifestCheck.CheckEntry: the name pattern's tolerance of one trailing newline is not modelled.
- RepositoryStatus.PrintedStatusIsRead: for changes of which only untracked ones have the state `??`; what git answers about origin's main is a parameter, and the distances are not bounded to 32 bits.
- StatusLine.StatusIsReadBack: for core.quotePath as git has it by default, and paths that are text; the bytes of one that is not are not modelled.
- White space is blank, tab, carriage return and line feed; other Unicode spaces are not modelled.
- TOML, JSON, Cargo and project files are taken as parsed; GitHub and crate descriptors, and the Mount and Uses columns of the estate's repositories, are left out as fetches of values.
- The runtime's own protocols, packaging, installs and audit writing are not part of this model.
