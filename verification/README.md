# A Dafny model of vivacity's installer and autoloader generator

vivacity ports the install half and the autoloader half of Composer. This project models the
algorithms both halves rest on and proves what they promise: that an install can be stopped anywhere
and run again, that a compiled autoloader finds what a registered one finds, that caches and fast
paths change nothing. `dafny verify dfyconfig.toml` checks everything.

Code that updates state in place is modelled in place (classes `Ctx`, `Scanner`, `ByteReader`,
`Project`, `Loader`, and methods with loops), each method against a specification function; the
properties are lemmas about those functions. Strings are sequences of characters; where the program
works on bytes, a `char` (or the type `Byte`) stands for one byte. Integers are unbounded.

Helpers that code and specification share are pinned down from outside: for each of them some lemma
says what it gives for inputs written out in characters, numbers, fields or files (`InstallByFields`,
`LayoutPlaces`, `PathTexts`, `Globs`, `VersionTexts`, `ConstraintTexts`, `ConstraintMeanings`,
`LoaderFiles`, `StaticTexts`, `NatOrder`, `SorterPlaces`, `CacheFormat`, `ClassMapPlaces`,
`ExportLayout`, and the forms in `PhpTokens`).

| file | what it models |
|---|---|
| `Common.dfy`, `Text.dfy` | options, lexicographic order, cutting and gluing strings |
| `InstallTransaction.dfy` | the disk, the plan of one run, and `install` step by step |
| `InstallRuns.dfy`, `InstallConvergence.dfy` | interrupted, repeated and interleaved runs as a state machine, and its invariant |
| `InstallPruning.dfy`, `InstallReach.dfy` | the finished disk path by path and which prunings matter; histories that exist |
| `InstallResults.dfy` | what follows: convergence, content, and where it ends |
| `InstallLoss.dfy` | one run when a planned removal lies above a package that stays |
| `InstallByFields.dfy` | the results of install, told by the fields of installed.json and of the lock |
| `Layout.dfy`, `LayoutPlaces.dfy`, `InstallPlan.dfy` | placement of packages, conflicts, removals; the layout feeding the transaction |
| `Paths.dfy`, `PathTexts.dfy`, `ComposerPaths.dfy` | path normalisation, rule by rule on written paths, and Composer's, with its schemes and drives |
| `ShortestPath.dfy`, `InstallPath.dfy` | relative paths, `install-path` and its way back |
| `Wildcards.dfy`, `Globs.dfy`, `BraceExpansion.dfy` | the two wildcard matchers, what their patterns mean sign by sign, brace expansion |
| `Versions.dfy`, `Constraints.dfy`, `ConstraintParser.dfy` | versions, constraint tokens, cutting a constraint into them |
| `VersionTexts.dfy`, `ConstraintTexts.dfy`, `ConstraintMeanings.dfy` | which texts are versions, and what tokens and whole constraints admit, by characters and numbers |
| `PlatformCheck.dfy` | the generated PHP version test |
| `ClassLoader.dfy`, `LoaderFiles.dfy` | the runtime autoloader, and which files it tries, piece by piece |
| `StaticCompiler.dfy`, `StaticTexts.dfy` | the arrays compiled for it, and what they hold, entry by entry |
| `StaticAnswers.dfy` | for which prefixes no lookup can tell the two apart |
| `ProductionFilter.dfy` | which packages count |
| `NatSort.dfy`, `NatOrder.dfy`, `PackageSorter.dfy`, `SorterPlaces.dfy` | natural order and package order, and both by bytes, chains and places |
| `PhpCleaner.dfy`, `PhpTokens.dfy` | blanking of PHP sources before class detection |
| `ClassMapCache.dfy`, `CacheFormat.dfy`, `Utf8.dfy` | the class-map cache, its file byte by byte, and UTF-8 |
| `ClassMapMerge.dfy`, `ClassMapPlaces.dfy`, `ClassMapScan.dfy` | the merge, where classes have to lie and which file wins, the scan jobs of a dump |
| `PhpExport.dfy`, `ExportLayout.dfy` | `var_export`, and its text line by line |

## Findings

Proving exact conditions turned up inputs on which the code does not do what its comments promise.
Each is a lemma.

- **Install, one end.** Interrupted anywhere and rerun, an install ends in the disk of one uninterrupted
  run if and only if (1) no wanted package that is recorded in its wanted version but has lost its
  directory is recorded with other metadata than the lock has: such a package, once cloned again, counts
  as unchanged and keeps its old entry; (2) no such package has any content, for a stop in the middle of
  its clone leaves a directory that counts as unchanged, and the rest never comes; and (3) an
  uninterrupted run prunes only directories it makes again, because a package still to be laid out or
  installed.json lies below: a stop between a deletion and its pruning leaves the emptied parent, and no
  later run prunes it (`ConvergesIffSettled`). When every package has content, (1) and (2) say that no
  package was lost at all (`ConvergesIffNoneLost`); where a tree is cloned in one step, as on macOS, (2)
  falls away. Where one planned removal deletes what an earlier one prunes, (3) is enough but may not be
  needed; packages in vendor never get there (`LayoutConvergesIff`).
- **Install, content.** However often its installs are stopped, a package is sure to end up with its own
  content if and only if it was unchanged and had it, or was to be laid out and not lost, or has no
  content (`ContentIff`). What was found unchanged is kept with whatever it holds (`HalfAcloneIsKept`).
  After a stop right behind a clone, a rerun with another lock records its own version, over the other
  version's files exactly when installed.json still recorded that version and the store entries differ
  (`AnotherLockIsNotNoticed`).
- **Install, vendor/bin.** Whether a run makes `vendor/bin` is decided by what still stands when it
  begins. A stop with all packages wiped loses it from every start (`TouchesCanBeLost`), and a stop
  behind the clone of a package recorded in another version makes the next run create it, also where
  the first would not have (`TouchesCanBeWon`). No stop shows if and only if nothing stands that is to be replaced
  or removed, and no package to be laid out is recorded in another version (`TouchesIff`).
- **Install, removals.** The directory of a removal is not compared with those of the packages that stay:
  of two places given by the plugin, the upper is removed while a package stays in the lower
  (`RemovalsAreNotCompared`). A package that is laid out anyway is not harmed (`RunLeaves`); an unchanged
  one is gone after an uninterrupted run, though recorded, until the next run lays it out again
  (`LostInARemoval`).
- **Install paths.** A package below `vendor/composer/dummy_file` is recorded at another directory,
  and one below a directory of `vendor/composer` named like a drive (`c:`) at none; all others read
  back, for every root that has a name or is spelled `/` or `//` (`InstallPathRoundTrip`).
- **Paths.** `normalize_path` is not idempotent on paths such as `//.`. Without a scheme or drive it
  differs from Composer's `normalizePath` exactly on paths that begin with three slashes. With one, the
  two agree exactly when no `//` precedes it or belongs to it, a drive letter is a capital, and the rest
  is empty, or an absolute path to something below the root, or a relative path whose first chunk is not
  `.`, and never leads out at the top: Composer turns `ab:x/../y` into `ab:y`, the port into `y`
  (`PortAgreesWithComposer`).
- **Layout.** The conflict check does not look at packages that stay in vendor; names of two
  components can not nest, shorter ones can (`NestedNamesAreNotCaught`).
- **PHP check.** `> 8.1.0-beta1` turns into a test that turns 8.1.0 away, and a number whose minor part
  is above 100, or 100 with a patch, or whose patch part is above 100 runs over the next release:
  `>= 8.150`, `>= 8.100.5` and `>= 8.1.150` turn away releases they admit. All other bounds are sound
  (`AlwaysSoundIff`, `OneConstraint`).
- **Constraints.** Dots of a stability suffix count as numbers given, up to a hyphen: `~1.2_beta.2` is
  cut at the second number, `~1.2-beta.2` at the first (`TildeMeans`, `CaretMeans`).
- **PSR-4 filter.** It compares what follows the namespace with the path and never the namespace itself: a
  class of any other namespace of the same length passes (`OtherNamespacePasses`).
- **Compiled autoloader.** Prefixes that begin with a character of several bytes, PSR-0 prefixes `0`,
  and PSR-4 namespaces without a final backslash are compiled into another loader than registration
  gives (`CompilesWhatIsRegistered`). Whatever directories are declared, it shows in the answers with
  each of them, but for a PSR-4 namespace `0` beside an empty one (`SameForAllDirectoriesIff`).

## Model

| member | source | states |
|---|---|---|
| InstallTransaction.Project.Install | crates/vivacity-core/src/installer.rs:97-387 | one run (diff against installed.json, removals, wipe and clone in lock order, state file last) leaves the disk `EndOf` gives, wherever the removals lie; when they lie beside the packages, that is the outcome the other results are about |
| InstallTransaction.Project.RemovePlanned | crates/vivacity-core/src/installer.rs:244-260 | planned directories go one by one, each with its emptied parent |
| InstallTransaction.Project.PruneEmptyParent | crates/vivacity-core/src/installer.rs:389-405 | path by path: the parent goes when it is a directory other than the project with nothing in it, and nothing else changes |
| InstallTransaction.Project.PlacePackage | crates/vivacity-core/src/installer.rs:271-293 | the root is emptied, then the store entry stands at the destination with all its parents |
| InstallTransaction.Project.PlaceAll | crates/vivacity-core/src/installer.rs:294-301 | every package that is not unchanged is placed, nothing else is touched |
| InstallTransaction.GetClone | crates/vivacity-core/src/clone.rs:12-37 | after a clone every path holds the tree at the destination, a made parent above it, or what it held |
| InstallRuns.LooksAfterWipe | crates/vivacity-core/src/installer.rs:286-289 | wiping one root empties it and leaves every other package's root and everything outside as it was |
| InstallRuns.LooksAfterClone | crates/vivacity-core/src/installer.rs:262-293 | cloning fills one root and makes its parents; every other root and everything outside stays |
| InstallRuns.LooksTheSame | crates/vivacity-core/src/installer.rs:262-270 | when all packages stand the disk no longer depends on the order or interleaving they were placed in, but below packages of which a stop left part |
| InstallRuns.ClearsStep | crates/vivacity-core/src/installer.rs:251-260 | going through the removals again, also after one was cut short or left without its pruning, ends like going through them once |
| InstallRuns.ClearsUnpruned | crates/vivacity-core/src/installer.rs:257-258 | only the removal whose turn it is can be stopped between its deletion and its pruning, and nothing but that pruning is then left out |
| InstallConvergence.WorksUnchanged | crates/vivacity-core/src/installer.rs:118-155 | what a run started on a half-placed disk finds unchanged: what the first run found, and lost packages whose directory stands again, whole or not |
| InstallConvergence.OutcomeIsSettled | crates/vivacity-core/src/installer.rs:118-155 | on a finished disk every wanted package is unchanged and nothing is left to remove |
| InstallConvergence.StepFits | crates/vivacity-core/src/installer.rs:97-387 | every step of every run, and every stop, also in the middle of wiping or cloning any packages, keeps the invariant that leads to an end like the outcome |
| InstallConvergence.EveryHistoryFits | crates/vivacity-core/src/installer.rs:1-5 | every state of every history of stopped and repeated runs satisfies that invariant |
| InstallConvergence.Converges | crates/vivacity-core/src/installer.rs:1-5 | whenever a history finishes, the disk is the outcome, up to whose metadata installed.json keeps, which prunings were left out, and lost packages of which part of a clone stands; with clones in one step there are none of these |
| InstallPruning.OutcomeInside | crates/vivacity-core/src/installer.rs:262-301 | in a package's root a run leaves the store entry, or what was there if it was unchanged |
| InstallPruning.OutcomeOutside | crates/vivacity-core/src/installer.rs:244-301 | everywhere else, what the removals leave and the directories above packages and installed.json |
| InstallPruning.TidyIff | crates/vivacity-core/src/installer.rs:389-405 | no stop between deletion and pruning shows in the end, if and (unless a later removal deletes what an earlier one prunes) only if all an uninterrupted run prunes is made again |
| InstallPruning.UnprunedShows | crates/vivacity-core/src/installer.rs:389-405 | a single pruning left out leaves the directory in the end, where an uninterrupted run has it exactly when it is made again |
| InstallReach.CanFinishUnpruned | crates/vivacity-core/src/installer.rs:251-260 | for any choice of removals there is a history that leaves out exactly their prunings |
| InstallResults.ConvergesIff | crates/vivacity-core/src/installer.rs:1-5 | for every plan: all finished histories end in one disk if and only if the entries of lost packages are the lock's, lost packages have no content (or trees are cloned in one step), and no pruning left out shows |
| InstallResults.ConvergesIffSettled | crates/vivacity-core/src/installer.rs:1-5 | the same by what can be checked before: settled, no content lost and tidy is always enough, the first two always needed, and tidy unless a later removal deletes what an earlier one prunes |
| InstallResults.ConvergesIffNoneLost | crates/vivacity-core/src/installer.rs:1-5 | when every package has content: if and only if no package is recorded in its wanted version without its directory, and no pruning left out shows |
| InstallReach.BegunThenStopped | crates/vivacity-core/src/clone.rs:12-73 | from any start with a lost package a history stops with only its destination made, which the next run finds unchanged |
| InstallReach.CanRevive | crates/vivacity-core/src/installer.rs:351-372 | from any start with a lost package a history exists whose installed.json keeps its recorded metadata |
| InstallResults.RunAgainChangesNothing | crates/vivacity-core/src/installer.rs:1-5 | a run on a finished disk changes nothing |
| InstallResults.InstallsWhatIsWanted | crates/vivacity-core/src/installer.rs:140-301 | installed.json records every wanted package, and its root holds exactly its store entry if and only if it was not found unchanged or already did |
| InstallResults.FinishedHolds | crates/vivacity-core/src/installer.rs:140-301 | the same of all finished histories; of a lost package a stop may have left part, and never anything else |
| InstallResults.ContentIff | crates/vivacity-core/src/installer.rs:140-301 | in all finished histories a package has its own content if and only if it was unchanged and had it, or was to be laid out and not lost, or has none |
| InstallResults.UnchangedIsNeverTouched | crates/vivacity-core/src/installer.rs:118-155 | in no state of any history is anything below the root of an unchanged package different from the start |
| InstallResults.HalfAcloneIsKept | crates/vivacity-core/src/installer.rs:140-155 | a directory recorded in the wanted version is kept with whatever it holds; the exact condition is InstallsWhatIsWanted |
| InstallResults.AnotherLockIsNotNoticed | crates/vivacity-core/src/installer.rs:140-155 | from every start where the first lock lays a package out, a history stops behind its clone, after which any finished history under the second lock records its package and gives it its content if and only if it was not recorded at the start or the store entries are the same |
| InstallResults.TouchesCanBeLost | crates/vivacity-core/src/installer.rs:309-320 | from every start a history stops where the next run has nothing standing to replace or remove, so that it does not make vendor/bin |
| InstallResults.TouchesCanBeWon | crates/vivacity-core/src/installer.rs:113-118 | behind the clone of a package recorded in another version a history stops where the next run makes vendor/bin, whatever the first would have done |
| InstallResults.TouchesIff | crates/vivacity-core/src/installer.rs:309-320 | after every stop the next run decides about vendor/bin as the first did, if and only if nothing stands to replace or remove and no package to be laid out is recorded in another version |
| InstallByFields.OneRunInRoot | crates/vivacity-core/src/installer.rs:140-155 | a package whose version and reference installed.json has, and whose directory is there, is left as it was path by path; of any other the run leaves the store entry and nothing else below its root |
| InstallByFields.FinishedInRoot | crates/vivacity-core/src/installer.rs:140-301 | the same of all finished histories; only of a package recorded in both without its directory a stop may have left part |
| InstallByFields.AtAnyMoment | crates/vivacity-core/src/installer.rs:118-155 | what is recorded with both and stands is the same at every moment of every history |
| InstallByFields.OneRunWrites | crates/vivacity-core/src/installer.rs:351-372 | installed.json then has the version and the reference of the lock for every wanted package, and the lock's metadata but for packages left alone |
| InstallByFields.FinishedWrites | crates/vivacity-core/src/installer.rs:351-372 | the same after every finished history |
| InstallByFields.FinishedNames | crates/vivacity-core/src/installer.rs:351-372 | and no other entries |
| InstallByFields.FinishedRemoves | crates/vivacity-core/src/installer.rs:244-260 | a planned directory whose package was recorded is gone after every finished history, with all below it |
| InstallByFields.FinishedKeeps | crates/vivacity-core/src/installer.rs:244-301 | what lies neither in or above a package or installed.json, nor in or right above a removed directory, is as it was |
| InstallLoss.RunLeaves | crates/vivacity-core/src/installer.rs:244-301 | wherever the removals lie, one run leaves the store entry in the root of a package it lays out, and in that of an unchanged one what the removals leave |
| InstallLoss.LostInARemoval | crates/vivacity-core/src/installer.rs:244-260 | an unchanged package below a removed directory is gone after the run and recorded all the same; the next run lays it out |
| InstallPlan.LayoutIsReady | crates/vivacity-core/src/installer.rs:262-270 | an accepted layout with two-component names and its removal plan meet everything the transaction assumes; only removals at places the plugin gave have to lie beside the others |
| InstallPlan.RemovalIsReady | crates/vivacity-core/src/layout.rs:352-412 | a planned removal lies beside installed.json and every package root |
| InstallPlan.LayoutPrunesOnce | crates/vivacity-core/src/layout.rs:352-412 | no planned removal deletes what an earlier one prunes |
| InstallPlan.LayoutConvergesIff | crates/vivacity-core/src/installer.rs:1-5 | so for an accepted layout stopped and repeated installs end in one disk if and only if the project is settled and tidy and no content was lost; with content in every package, if and only if none was lost and it is tidy |
| InstallPlan.RemovalsAreNotCompared | crates/vivacity-core/src/layout.rs:352-412 | for any two places given by the plugin, one above the other, the layout is accepted that removes the upper and keeps a package in the lower |
| InstallPlan.RootHoldsDest | crates/vivacity-core/src/layout.rs:440-449 | a package is laid out in its package root or below it |
| InstallPlan.RootBesideState | crates/vivacity-core/src/layout.rs:440-449 | no package root meets installed.json, but that of a package called composer/installed.json |
| Layout.PlacePackages | crates/vivacity-core/src/layout.rs:305-324 | every non-metapackage gets its path, and there is no issue exactly when all can be placed |
| Layout.FindConflicts | crates/vivacity-core/src/layout.rs:326-350 | no issue exactly when no two packages share a path and none lies below one outside vendor |
| Layout.PlanRemovals | crates/vivacity-core/src/layout.rs:352-412 | the removal plan, and no issue exactly when every entry that went away can be removed |
| Layout.ResolveLayout | crates/vivacity-core/src/layout.rs:218-424 | accepted exactly when all can be placed, nothing conflicts and all removals are possible; then these paths and removals |
| Layout.CustomParts | crates/vivacity-core/src/layout.rs:170-191 | a path given by the plugin is a non-empty chain of names below the project that does not begin with vendor |
| Layout.RootsNestLikeNames | crates/vivacity-core/src/layout.rs:326-350 | without conflicts package roots lie inside one another if and only if the names of packages that stay in vendor do |
| Layout.TwoComponentRootsApart | crates/vivacity-core/src/layout.rs:326-350 | with names of two components no package root lies inside another |
| Layout.NestedNamesAreNotCaught | crates/vivacity-core/src/layout.rs:338-350 | two packages in vendor, one name above the other, are accepted with nested roots |
| Layout.RemovesWhatWasLaidOut | crates/vivacity-core/src/layout.rs:352-412 | an entry this layout wrote is removed at its package root exactly when its install-path reads back; else the plan is refused |
| Layout.RemovesOnlyItsOwn | crates/vivacity-core/src/layout.rs:352-412 | every directory in the plan belongs to an entry no longer wanted, is the root the current layout gives that package, and is recorded there by that entry, whatever else is recorded |
| Layout.PrefixIsAbove | crates/vivacity-core/src/layout.rs:343 | the textual prefix test is the component-wise one |
| LayoutPlaces.AbsoluteIff | crates/vivacity-core/src/pathutil.rs:60-69 | which paths are absolute, by their characters |
| LayoutPlaces.VendorPlace | crates/vivacity-core/src/layout.rs:153-169 | a package that stays in vendor lies at its name and target directory |
| LayoutPlaces.CustomPlaceIff | crates/vivacity-core/src/layout.rs:170-191 | a path given by the plugin is accepted if and only if it is not absolute and leads down to names not beginning with vendor; the place is that chain |
| LayoutPlaces.LastPlaceStands | crates/vivacity-core/src/layout.rs:305-324 | of several packages of one name the last that can be placed counts |
| LayoutPlaces.RemovalIs | crates/vivacity-core/src/layout.rs:352-412 | an entry that went away is removed at the place the layout gives it, if and only if it records that place |
| LayoutPlaces.RootIs | crates/vivacity-core/src/layout.rs:440-449 | in vendor the directory of its name is emptied for a package, whatever its target directory; elsewhere the place itself |
| LayoutPlaces.NoConflictIff | crates/vivacity-core/src/layout.rs:326-350 | there is no conflict if and only if no two places are equal or one below another that is not in vendor |
| Paths.NormalizePath | crates/vivacity-core/src/pathutil.rs:71-94 | the loop with its `up` flag computes the reduction of the chunks under the path's root |
| Paths.AbsoluteForm | crates/vivacity-core/src/pathutil.rs:71-94 | an absolute path becomes its root and the directory it names |
| Paths.NormalizedMeansTheSame | crates/vivacity-core/src/pathutil.rs:71-94 | a relative path and its normal form lead to the same place from every directory |
| Paths.NormalFormIsMeaning | crates/vivacity-core/src/pathutil.rs:71-94 | two relative paths have one normal form if and only if they lead to the same place from everywhere |
| Paths.NormalizeTwice | crates/vivacity-core/src/pathutil.rs:71-94 | idempotent if and only if the path is not `//` followed by chunks that come to nothing |
| PathTexts.EitherSlash | crates/vivacity-core/src/pathutil.rs:71-94 | a backslash counts as a slash |
| PathTexts.DotDrops | crates/vivacity-core/src/pathutil.rs:71-94 | a dot or nothing between separators is dropped, wherever it stands |
| PathTexts.BackDrops | crates/vivacity-core/src/pathutil.rs:71-94 | a name and two dots behind it are dropped together |
| PathTexts.TopDrops | crates/vivacity-core/src/pathutil.rs:71-94 | two dots right below the root are dropped |
| PathTexts.StaysAsIs | crates/vivacity-core/src/pathutil.rs:71-94 | names stay, and so do the dots a relative path begins with |
| ComposerPaths.PortAgreesWithComposer | docs/reference/Filesystem.php:605-646 | exactly when the port equals Composer's normalizePath: without a scheme or drive if the path does not begin with three slashes, with one under the condition spelled out in `Agrees` |
| ComposerPaths.PrefixIs | docs/reference/Filesystem.php:605-646 | where a scheme or drive ends, for every text, by its characters |
| ComposerPaths.CapitalIs | docs/reference/Filesystem.php:605-646 | a drive letter alone or behind a scheme with slashes becomes a capital, nothing else does |
| ShortestPath.FindShortestPath | crates/vivacity-core/src/pathutil.rs:122-164 | the method computes the path the results below are about, for any strings |
| ShortestPath.FindCommonPath | crates/vivacity-core/src/pathutil.rs:110-120 | the loop terminates on every string and finds the first prefix on the way up |
| ShortestPath.CommonIs | crates/vivacity-core/src/pathutil.rs:110-120 | for absolute paths that is the deepest directory above both |
| ShortestPath.LeadsToTarget | crates/vivacity-core/src/pathutil.rs:129-164 | read from where it starts the path leads to the target, for all absolute paths, if and only if the file it starts from is not above the target |
| PathTexts.ShortestIs | crates/vivacity-core/src/pathutil.rs:129-164 | between two directories the text is as many `../` as components not shared and then the others, `./` in front of a neighbour, and the target in full when nothing is shared and two levels would have to be gone up |
| ShortestPath.LastPart | crates/vivacity-core/src/pathutil.rs:96-108 | dirname drops the last component and stops at the root, basename is that component |
| InstallPath.InstallPathRoundTrip | crates/vivacity-core/src/layout.rs:358-383 | the planner recovers a package's directory from its install-path if and only if the root is anchored, the package is not below dummy_file, and not below a drive-like name |
| InstallPath.BelowDummyIsMisread | crates/vivacity-core/src/layout.rs:451-461 | a package below vendor/composer/dummy_file is taken to lie beside that directory |
| InstallPath.OnlyDrives | crates/vivacity-core/src/pathutil.rs:59-69 | a recorded relative path looks absolute only by a drive letter |
| InstallPath.WhatIsWritten | crates/vivacity-core/src/layout.rs:451-461 | what is recorded is the absolute target or a relative path without backslash or doubled slash |
| LayoutPlaces.InstallPathText | crates/vivacity-core/src/layout.rs:451-461 | the text recorded in and beside vendor/composer, in and beside vendor |
| LayoutPlaces.RecordedPlaceIs | crates/vivacity-core/src/layout.rs:358-383 | the directory a recorded text is taken for |
| Wildcards.PatternMatches | crates/vivacity-core/src/layout.rs:55-80 | greedy matching holds if and only if some split of the name fits the pattern |
| Wildcards.FindDecides | crates/vivacity-core/src/layout.rs:72-77 | committing to the leftmost occurrence of a middle piece loses no match |
| Wildcards.FnMatchFits | crates/vivacity-core/src/glob.rs:204-227 | on stars and literals the backtracking matcher decides the same splits |
| Wildcards.MatchersAgree | crates/vivacity-core/src/glob.rs:204-227 | so both matchers agree on such patterns |
| Wildcards.Find | crates/vivacity-core/src/layout.rs:73 | the leftmost occurrence |
| Globs.StarsMean | crates/vivacity-core/src/layout.rs:55-80 | a name matches a rule if and only if it spells, in any case, its pieces with something in place of each star |
| Globs.FnMatchMeans | crates/vivacity-core/src/glob.rs:204-270 | a glob matches exactly what its signs mean one by one: stars, question marks, escapes, and sets with ranges, escapes and negation |
| BraceExpansion.BraceExpand | crates/vivacity-core/src/glob.rs:35-75 | terminates on every string and computes the expansion |
| BraceExpansion.MatchBrace | crates/vivacity-core/src/glob.rs:41-66 | the depth-counting scan finds the matching brace and the alternatives between |
| BraceExpansion.FindOpen | crates/vivacity-core/src/glob.rs:77-91 | the first occurrence not behind a backslash |
| BraceExpansion.ExpandsToProduct | crates/vivacity-core/src/glob.rs:35-75 | on the text of any tree of literals, escapes and nested alternations the expansion is the left-to-right product, in order and with duplicates |
| BraceExpansion.EveryPatternIsATree | crates/vivacity-core/src/glob.rs:35-75 | every string is the text of such a tree, so the product result covers all patterns |
| Versions.TotalOrder | crates/vivacity-core/src/version.rs:113-126 | versions are totally ordered, with ties only between equal versions |
| VersionTexts.ParseIff | crates/vivacity-core/src/version.rs:36-111 | a text is read as a version if and only if it is one to four numbers, perhaps behind a `v`, and a suffix of marks, a word in any case and a number; and then as that one |
| VersionTexts.PartsDecide | crates/vivacity-core/src/version.rs:113-126 | the first number that differs decides |
| VersionTexts.StabilitiesDecide | crates/vivacity-core/src/version.rs:113-126 | then development, alpha, beta, candidate, stable and patch, in this order |
| Constraints.Bump | crates/vivacity-core/src/constraint.rs:135-146 | one component is raised and those behind it are zeroed, with Dev stability |
| Constraints.CaretIsAFamily | crates/vivacity-core/src/constraint.rs:205-226 | a caret constraint matches exactly the versions from the operand's dev floor on that agree with it up to the first non-zero component |
| Constraints.TildeIsAFamily | crates/vivacity-core/src/constraint.rs:227-243 | a tilde constraint, exactly those that agree up to the last but one component given |
| Constraints.XRangeIsAFamily | crates/vivacity-core/src/constraint.rs:189-203 | `X.Y.*`, exactly those that agree on the components given; the special case for zeros changes nothing |
| Constraints.PlainVersion | crates/vivacity-core/src/version.rs:36-72 | a version without a suffix parses as stable, with the dots the position is counted from |
| ConstraintTexts.CaretMeans | crates/vivacity-core/src/constraint.rs:205-226 | `^` and any version admits what agrees with it up to its first number that is not zero among those given, from it (without a suffix, from its dev floor) on |
| ConstraintTexts.TildeMeans | crates/vivacity-core/src/constraint.rs:227-243 | `~`, up to the last number but one; dots of a suffix before a hyphen count as numbers |
| ConstraintTexts.XRangeMeans | crates/vivacity-core/src/constraint.rs:189-203 | numbers and `.*` or `.x` admit exactly what begins with these numbers; behind a suffix there is no range |
| ConstraintTexts.HyphenMeans | crates/vivacity-core/src/constraint.rs:161-181 | from one version to another, or to all that begin with one or two numbers |
| ConstraintTexts.SignMeans | crates/vivacity-core/src/constraint.rs:245-270 | each sign admits what it says, by numbers; `<` and `>=` without a suffix speak of the dev floor |
| ConstraintTexts.StarMeans | crates/vivacity-core/src/constraint.rs:183-187 | stars and dots admit everything |
| ConstraintTexts.NothingElse | crates/vivacity-core/src/constraint.rs:154-270 | no other token is read |
| ConstraintParser.ParseConstraint | crates/vivacity-core/src/constraint.rs:46-61 | the loops over alternatives, words and tokens compute the constraint, or nothing as soon as one token is not read |
| ConstraintParser.GlueTokens | crates/vivacity-core/src/constraint.rs:93-115 | signs and hyphens are glued to the words beside them |
| ConstraintMeanings.TextMeans | crates/vivacity-core/src/constraint.rs:46-127 | a written constraint is read if and only if all conditions of all alternatives are, and admits what all conditions of one alternative admit; with `||` or with `|`, and any commas and blanks |
| ConstraintTexts.BoundIs | crates/vivacity-core/src/constraint.rs:373-386 | `>=`, `=` and `>` bound from below, the last without its version, and nothing else does |
| ConstraintTexts.HigherIs | crates/vivacity-core/src/constraint.rs:354-364 | the later version is the higher bound, and at one version the exclusive one |
| Constraints.GroupBound | crates/vivacity-core/src/constraint.rs:366-399 | the highest of the lower bounds of one conjunction |
| Constraints.ComputeLowerBound | crates/vivacity-core/src/constraint.rs:366-399 | the lowest of those over the alternatives, and none exactly when one alternative has none |
| Constraints.AdmittedReachesBound | crates/vivacity-core/src/constraint.rs:349-399 | every admitted version reaches the lower bound |
| Constraints.NotHigherIsWeaker | crates/vivacity-core/src/constraint.rs:354-364 | a bound that is not higher is reached by everything that reaches the other |
| PlatformCheck.LowestPhp | crates/vivacity-autoload/src/generator.rs:1153-1234 | the bound chosen is one of the considered bounds and none of them is higher |
| PlatformCheck.ConsideredIff | crates/vivacity-autoload/src/generator.rs:1174-1200 | the constraints considered are those that packages outside development put on php or php-64bit, where no pattern ignores it |
| PlatformCheck.PatternIff | crates/vivacity-autoload/src/generator.rs:1146-1151 | a pattern ignores a name when it is the name or a beginning and a star, perhaps with a plus |
| PlatformCheck.TestIs | crates/vivacity-autoload/src/generator.rs:1229-1234 | the test compares 10000 times the major, 100 times the minor and the patch number |
| PlatformCheck.SoundIff | crates/vivacity-autoload/src/generator.rs:1174-1234 | for every bound, every release that satisfies all constraints passes the test if and only if none of the releases the test turns away from the bound's numbers on satisfies them; a fitting inclusive bound turns none away |
| PlatformCheck.FittingTurnsAway | crates/vivacity-autoload/src/generator.rs:1229-1234 | while the number fits, the test turns away exactly the one release with that number, and only if the bound is exclusive |
| PlatformCheck.AlwaysSoundIff | crates/vivacity-autoload/src/generator.rs:1174-1234 | the test is sound whatever constraints gave the bound, if and only if the number fits and the bound is inclusive or not before the release with that number |
| PlatformCheck.PrereleaseBoundIsUnsound | crates/vivacity-autoload/src/generator.rs:1229-1234 | `> 8.1.0-beta1` admits 8.1.0 and its test does not |
| PlatformCheck.OneConstraint | crates/vivacity-autoload/src/generator.rs:1174-1234 | the test written for a single `>= v` is sound if and only if the number of `v` fits; for `> v`, if moreover `v` is not before the release with that number |
| ClassLoader.IndexesAgree | crates/vivacity-autoload/assets/ClassLoader.php:230-310 | after any registrations the length index and the directory map know the same prefixes, all ending in a backslash |
| ClassLoader.PrefixesAreAll | crates/vivacity-autoload/assets/ClassLoader.php:498-513 | the prefixes tried are exactly the registered prefixes of the class, each before every shorter one |
| ClassLoader.TriesEveryPrefix | crates/vivacity-autoload/assets/ClassLoader.php:498-513 | PSR-4 candidates are the directories of those prefixes in that order |
| ClassLoader.Loader.FindByPrefix | crates/vivacity-autoload/assets/ClassLoader.php:494-513 | for any indexes the files behind the first-letter guard in the order of the chopping loop; while the indexes agree, what trying every registered prefix finds |
| ClassLoader.GuardedIsEveryPrefix | crates/vivacity-autoload/assets/ClassLoader.php:494-513 | while the indexes agree, the guard and the chopping lose no registered prefix and keep their order |
| ClassLoader.Loader.FindByPsr0 | crates/vivacity-autoload/assets/ClassLoader.php:522-541 | PSR-0 prefixes of the class are tried in array order |
| ClassLoader.Loader.FindFileWithExtension | crates/vivacity-autoload/assets/ClassLoader.php:492-556 | the first existing candidate in the order PSR-4, fallback, PSR-0, fallback, then the include path |
| ClassLoader.Loader.FindFile | crates/vivacity-autoload/assets/ClassLoader.php:442-475 | for any negative cache: the class map, then nothing for remembered names, then the search, whose failure is remembered; with a right cache the answer is that of a loader without one, and the cache stays right |
| ClassLoader.Loader.AddClassMap | crates/vivacity-autoload/assets/ClassLoader.php:161-168 | the maps are merged and the negative cache stays right |
| ClassLoader.Loader.SetPsr4 | crates/vivacity-autoload/assets/ClassLoader.php:298-310 | replaces a namespace in both indexes, or throws and changes nothing |
| ClassLoader.Loader.AddPsr4 | crates/vivacity-autoload/assets/ClassLoader.php:230-265 | adds directories before or behind those of a namespace, or throws and changes nothing |
| ClassLoader.Loader.Set | crates/vivacity-autoload/assets/ClassLoader.php:278-285 | replaces the directories of a PSR-0 prefix in place |
| ClassLoader.Loader.Add | crates/vivacity-autoload/assets/ClassLoader.php:180-216 | adds directories before or behind those of a PSR-0 prefix |
| ClassLoader.RemembersIff | crates/vivacity-autoload/assets/ClassLoader.php:442-475 | the negative cache is right if and only if a loader without one answers with nothing for all its names that are not in the class map; an empty one is |
| ClassLoader.StaysMissing | crates/vivacity-autoload/assets/ClassLoader.php:442-475 | after a lookup that failed, whatever is registered, the name is answered rightly if and only if it came into the class map or is still not to be found |
| ClassLoader.RegistrationComesTooLate | crates/vivacity-autoload/assets/ClassLoader.php:442-475 | looked up before a directory is registered, a class in it is answered with nothing ever after, though a loader without the cache finds its file |
| LoaderFiles.CandidatesAre | crates/vivacity-autoload/assets/ClassLoader.php:492-556 | for every class and every loader the files tried are those of its namespaces from the longest on, the fallbacks, those of its PSR-0 prefixes and their fallbacks, each spelled out from the pieces of the name |
| LoaderFiles.Psr0PathIs | crates/vivacity-autoload/assets/ClassLoader.php:516-524 | underscores are directories only behind the last backslash |
| LoaderFiles.AnswerIs | crates/vivacity-autoload/assets/ClassLoader.php:442-475 | what a loader that remembers nothing answers, in every world |
| LoaderFiles.FoundBelowNamespace | crates/vivacity-autoload/assets/ClassLoader.php:498-513 | a class is found in the first directory of its namespace that has its file, when no longer namespace has it |
| LoaderFiles.RegisteredNamespace | crates/vivacity-autoload/assets/ClassLoader.php:298-310 | registered alone, a namespace has its classes below its directory, without the namespace in the path |
| LoaderFiles.RegisteredFallback | crates/vivacity-autoload/assets/ClassLoader.php:298-310 | the empty namespace has every class below its directory |
| LoaderFiles.RegisteredPrefix | crates/vivacity-autoload/assets/ClassLoader.php:278-285 | a PSR-0 prefix has its classes with the whole name in the path |
| LoaderFiles.AddedDirectory | crates/vivacity-autoload/assets/ClassLoader.php:230-265 | a directory is added before or behind those of its namespace and changes no other |
| LoaderFiles.AddedToPrefix | crates/vivacity-autoload/assets/ClassLoader.php:180-216 | the same for a PSR-0 prefix, which keeps its place |
| LoaderFiles.KnownAre | crates/vivacity-autoload/assets/ClassLoader.php:230-310 | after any registrations the namespaces known are those registered with a backslash at the end, and the length index has exactly them, under their first byte and with their length |
| StaticCompiler.ParseTypeMap | crates/vivacity-autoload/src/generator.rs:846-858 | find-or-push groups declarations by namespace |
| StaticCompiler.GroupedIsDeclared | crates/vivacity-autoload/src/generator.rs:846-858 | each namespace has one entry with exactly the directories declared for it, in order |
| StaticCompiler.KrsortedIsSorted | crates/vivacity-autoload/src/generator.rs:776-778 | sorting gives descending keys and changes no entry |
| StaticTexts.DeclaredAlso | crates/vivacity-autoload/src/generator.rs:846-858 | a declaration counts for the namespace without its leading backslashes, behind earlier ones |
| StaticTexts.SortedIs | crates/vivacity-autoload/src/generator.rs:776-778 | every key stands before those that begin it, or have the smaller byte where they differ first |
| StaticCompiler.BuildStatics | crates/vivacity-autoload/src/generator.rs:1062-1103 | the two loops build the arrays the results below are about |
| StaticTexts.DirsAre | crates/vivacity-autoload/src/generator.rs:1067-1082 | the directory array holds the named namespaces in order, the fallback the directories of the empty one |
| StaticTexts.LengthsAre | crates/vivacity-autoload/src/generator.rs:1067-1082 | under a letter stand the namespaces whose first UTF-8 character it is, each with its length in bytes |
| StaticTexts.PrefixesAre | crates/vivacity-autoload/src/generator.rs:1083-1096 | under a letter stand the PSR-0 entries whose first character it is, in order |
| StaticCompiler.CompilesWhatIsRegistered | crates/vivacity-autoload/src/generator.rs:1022-1144 | the compiled arrays denote the loader registration gives, if and only if namespaces end in a backslash, first characters are one byte, and no prefix is `0` |
| StaticCompiler.SameAnswers | crates/vivacity-autoload/src/generator.rs:1022-1144 | then every class is found in the same file in every world |
| StaticCompiler.OneNamespace | crates/vivacity-autoload/src/generator.rs:1022-1144 | a single PSR-4 namespace gives the same answers for every name and world if and only if it is empty or ends in a backslash and begins with a one-byte character |
| StaticCompiler.OnePrefix | crates/vivacity-autoload/src/generator.rs:1022-1144 | a single PSR-0 prefix does if and only if it is not `0` and begins with a one-byte character |
| StaticAnswers.SameForAllDirectoriesIff | crates/vivacity-autoload/src/generator.rs:1022-1144 | in maps of any size: whatever directories are declared, every class is found in the same file in every world, if and only if every PSR-4 namespace ends in a backslash and begins with a one-byte character, or is `0` before an empty one, and every PSR-0 prefix begins with a one-byte character and is not `0` |
| StaticAnswers.HarmlessIsSame | crates/vivacity-autoload/src/generator.rs:1022-1144 | with such prefixes the answers agree, also where the two loaders differ |
| StaticAnswers.HarmlessWhenSorted | crates/vivacity-autoload/src/generator.rs:776-778 | as the maps are sorted, any empty namespace comes behind `0` |
| StaticCompiler.LongestPrefixFirst | crates/vivacity-autoload/src/generator.rs:776-778 | in descending order, of two prefixes of one class the longer comes first |
| StaticCompiler.Psr0LongestFirst | crates/vivacity-autoload/src/generator.rs:1086-1100 | so the loader tries the longer of two PSR-0 prefixes first |
| ProductionFilter.Add | crates/vivacity-autoload/src/generator.rs:726-744 | terminates on cyclic requirements, closes what it adds, and adds nothing a closed set could do without |
| ProductionFilter.FilterPackages | crates/vivacity-autoload/src/generator.rs:713-749 | the set is the least closed one with the root's requirements; the packages kept are those of the set in order, and those to which a route leads |
| ProductionFilter.ReachIsReachable | crates/vivacity-autoload/src/generator.rs:726-744 | a name is in the set if and only if a chain of requirements, followed through replacements, leads to it |
| ProductionFilter.KeptIffReachable | crates/vivacity-autoload/src/generator.rs:746-749 | a package is kept if and only if its name or one it replaces is reachable |
| ProductionFilter.KeptIffRoute | crates/vivacity-autoload/src/generator.rs:713-749 | the same by packages: if and only if a route leads from the root to a name it stands for, each step a requirement of the package that the last listed stand-in gives for the name |
| NatSort.StrNatCaseCmp | crates/vivacity-autoload/src/natsort.rs:52-115 | the two-index scanner compares the normalised keys lexicographically |
| NatSort.CompareRight | crates/vivacity-autoload/src/natsort.rs:8-29 | the longer digit run wins, then the first differing digit |
| NatSort.CompareLeft | crates/vivacity-autoload/src/natsort.rs:31-50 | digit runs compared digit by digit |
| NatSort.NextRound | crates/vivacity-autoload/src/natsort.rs:68-114 | one round decides or leaves the question unchanged |
| NatSort.TotalPreorder | crates/vivacity-autoload/src/natsort.rs:52-115 | reflexive, reversing, transitive on all byte strings; names tie exactly when their keys coincide |
| NatSort.NumeralsSortByValue | crates/vivacity-autoload/src/natsort.rs:52-115 | after a common prefix numerals sort by the numbers they denote |
| NatOrder.CaseDoesNotMatter | crates/vivacity-autoload/src/natsort.rs:94-105 | a name in other cases ties with it and compares with any third name as it does |
| NatOrder.BytesDecide | crates/vivacity-autoload/src/natsort.rs:94-105 | behind a common prefix letters count as capitals 65 to 90 and all other bytes as themselves |
| NatOrder.RunsDecide | crates/vivacity-autoload/src/natsort.rs:8-50 | two runs of digits, with and without leading zeros |
| NatOrder.NumbersInOrder | crates/vivacity-autoload/src/natsort.rs:8-50 | behind a common prefix numbers without leading zeros stand in their order |
| NatOrder.ShorterFirst | crates/vivacity-autoload/src/natsort.rs:106-114 | a name comes before its continuations |
| NatOrder.LeadingZeros | crates/vivacity-autoload/src/natsort.rs:57-63 | zeros that begin a name before a digit do not count |
| NatOrder.BlanksDoNotMatter | crates/vivacity-autoload/src/natsort.rs:65-71 | which blanks do not count |
| PackageSorter.SortPackages | crates/vivacity-autoload/src/sorter.rs:16-63 | on any graph a permutation sorted by natural name and the weights the cut recursion gives the names in package order; whatever is listed before something it requires is required by it in turn; without cycles weights are plain sums over the users |
| PackageSorter.Ctx.Importance | crates/vivacity-autoload/src/sorter.rs:29-46 | terminates on any graph, never changes a stored result, leaves out of a sum only users on the stack, and is the cut recursion from memo to memo |
| PackageSorter.BuildUsage | crates/vivacity-autoload/src/sorter.rs:17-22 | for each name its requirers, once per requirement and in order |
| PackageSorter.StableSort | crates/vivacity-autoload/src/sorter.rs:58-62 | a stable sorted permutation |
| PackageSorter.LighterThanItsUsers | crates/vivacity-autoload/src/sorter.rs:29-46 | a package weighs less than its users, but for mutual requirements |
| PackageSorter.PlainSums | crates/vivacity-autoload/src/sorter.rs:29-46 | on an acyclic graph the memoised weights equal the unmemoised definition |
| SorterPlaces.WeightsAre | crates/vivacity-autoload/src/sorter.rs:29-46 | without cycles a package weighs, below zero, the number of chains of requirements that end at it |
| SorterPlaces.RankedIsAcyclic | crates/vivacity-autoload/src/sorter.rs:29-46 | there are no cycles when the names can be ranked so that users always rank higher |
| SorterPlaces.TwoThatNeedEachOther | crates/vivacity-autoload/src/sorter.rs:29-46 | of two packages that require each other the first weighs -2 and the second -1 |
| SorterPlaces.LighterFirst | crates/vivacity-autoload/src/sorter.rs:58-62 | lighter packages come first |
| SorterPlaces.SmallerLetterFirst | crates/vivacity-autoload/src/sorter.rs:58-62 | then the name with the smaller capital letter or other byte where names differ first |
| SorterPlaces.GivenFirst | crates/vivacity-autoload/src/sorter.rs:58-62 | then the package given first |
| PhpCleaner.Clean | crates/vivacity-autoload/src/classmap.rs:41-125 | the cleaner with its bulk copy equals a lexer that looks at one byte at a time, on every input |
| PhpCleaner.CleanStep | crates/vivacity-autoload/src/classmap.rs:55-121 | each round of the inner loop is a run of that lexer |
| PhpCleaner.SkipString | crates/vivacity-autoload/src/classmap.rs:127-142 | ends where the lexer leaves the string |
| PhpCleaner.SkipComment | crates/vivacity-autoload/src/classmap.rs:144-154 | ends where the lexer leaves the comment |
| PhpCleaner.SkipToNewline | crates/vivacity-autoload/src/classmap.rs:156-161 | ends where the lexer leaves a line comment |
| PhpCleaner.HeredocStart | crates/vivacity-autoload/src/classmap.rs:163-207 | recognises exactly the heredoc openings, with their name and what follows |
| PhpTokens.OpensIff | crates/vivacity-autoload/src/classmap.rs:163-207 | a text opens a heredoc if and only if it begins with `<<<`, blanks, a name perhaps between two equal quotes, and a newline; and then with that name and what follows |
| PhpTokens.ClosesIff | crates/vivacity-autoload/src/classmap.rs:209-232 | a line closes it if and only if it is blanks and the name, not continued |
| PhpCleaner.SkipHeredoc | crates/vivacity-autoload/src/classmap.rs:209-232 | skipping line by line ends where the byte-wise lexer leaves the heredoc |
| PhpCleaner.BulkCopy | crates/vivacity-autoload/src/classmap.rs:104-120 | bytes passed over in bulk would have been copied one by one |
| PhpTokens.CleanedTokenByToken | crates/vivacity-autoload/src/classmap.rs:38-125 | cleaning a section keeps `null` for each string and heredoc, nothing of comments, and every other byte |
| PhpTokens.BodiesDoNotShow | crates/vivacity-autoload/src/classmap.rs:38-125 | the cleaned text does not depend on the bodies of strings, comments and heredocs |
| PhpTokens.EverySectionIsTokens | crates/vivacity-autoload/src/classmap.rs:38-125 | every section text is a list of such tokens, up to its end, `?>`, or a last piece of which at most one `null` is kept |
| PhpTokens.CleanedFile | crates/vivacity-autoload/src/classmap.rs:38-125 | of a file the text before the opening tag is dropped, then the section is cleaned token by token |
| ClassMapCache.Canonical | crates/vivacity-autoload/src/classmap.rs:394-463 | the reader accepts exactly what the writer writes for storable entries, and reads back those entries |
| ClassMapCache.NothingMayFollow | crates/vivacity-autoload/src/classmap.rs:424-427 | trailing bytes are rejected |
| ClassMapCache.NothingMayBeMissing | crates/vivacity-autoload/src/classmap.rs:470-499 | every truncation is rejected |
| ClassMapCache.CapacityIsExact | crates/vivacity-autoload/src/classmap.rs:408-421 | on an accepted file the clamped pre-allocation is never below the count |
| CacheFormat.ReadIff | crates/vivacity-autoload/src/classmap.rs:404-468 | bytes are read as given files if and only if they are these files written out byte by byte with four-byte lengths, and the paths are the encoding of some text |
| Utf8.Utf8Iff | crates/vivacity-autoload/src/classmap.rs:416 | the byte patterns accepted are exactly the encodings of sequences of Unicode scalar values |
| ClassMapCache.Load | crates/vivacity-autoload/src/classmap.rs:404-428 | the reader over a moving position decodes the format |
| ClassMapCache.Store | crates/vivacity-autoload/src/classmap.rs:430-443 | the writer encodes it |
| ClassMapCache.PushSlice | crates/vivacity-autoload/src/classmap.rs:464-468 | a length and the bytes, before whatever is written next |
| ClassMapCache.ByteReader.U32 | crates/vivacity-autoload/src/classmap.rs:480-485 | four bytes, little-endian, or nothing when they are not there |
| ClassMapCache.ByteReader.Slice | crates/vivacity-autoload/src/classmap.rs:486-492 | a length and that many bytes, or nothing |
| ClassMapMerge.Scanner.MergeScanned | crates/vivacity-autoload/src/classmap.rs:627-679 | merging keeps each class at its first surviving occurrence, with its later occurrences elsewhere as ambiguities, in order |
| ClassMapMerge.Scanner.MergeItem | crates/vivacity-autoload/src/classmap.rs:636-677 | one file: deduplicated, excluded, filtered, then merged |
| ClassMapMerge.Scanner.AddOccurrence | crates/vivacity-autoload/src/classmap.rs:664-676 | first one wins; another path becomes an ambiguity |
| ClassMapMerge.Scanner.FilterByNamespace | crates/vivacity-autoload/src/classmap.rs:748-820 | the compliant classes, or none of them and a violation for each |
| ClassMapMerge.DescriptionIsUnique | crates/vivacity-autoload/src/classmap.rs:627-679 | the class map and the ambiguities are determined by the surviving occurrences |
| ClassMapPlaces.Psr4Place | crates/vivacity-autoload/src/classmap.rs:786-800 | a class of the namespace is kept if and only if the pieces of the rest of its name are those of the file's path |
| ClassMapPlaces.Psr0Place | crates/vivacity-autoload/src/classmap.rs:772-785 | a class with the prefix is kept if and only if its namespace and the pieces of its last part are those of the path |
| ClassMapPlaces.OtherNamespacePasses | crates/vivacity-autoload/src/classmap.rs:786-800 | a class of another namespace of the same length passes too |
| ClassMapPlaces.LoaderFindsIt | crates/vivacity-autoload/src/classmap.rs:786-800 | what is kept for PSR-4 the runtime loader answers with that very file |
| ClassMapPlaces.FirstFileWins | crates/vivacity-autoload/src/classmap.rs:664-676 | the class map has each class at the first file that brings it |
| ClassMapPlaces.AmbiguousIff | crates/vivacity-autoload/src/classmap.rs:664-676 | a class is ambiguous with exactly the other paths that bring it |
| ClassMapPlaces.ViolationsAre | crates/vivacity-autoload/src/classmap.rs:802-818 | reported are the classes of files from which the rule keeps nothing |
| ClassMapScan.ScanOnly | crates/vivacity-autoload/src/classmap.rs:584-625 | for any slot: a readable one is believed, anything else is read from the files and stored; from a faithful slot the answer is that of the files |
| ClassMapScan.ScannedIffFaithful | crates/vivacity-autoload/src/classmap.rs:584-625 | without symlinks the answer is that of the files if and only if the slot is unreadable or holds the directory's own entries |
| ClassMapScan.ScanAndMerge | crates/vivacity-autoload/src/generator.rs:377-410 | from any slots a dump's class map is the merge, in job order, of what each scan gives alone, however the scans were interleaved; from slots such scans have written, the merge of all files |
| ClassMapScan.ScanAll | crates/vivacity-autoload/src/generator.rs:377-407 | from any slots, in any order and interleaving of reading and storing, each scan gives what it gives alone, and would give that again; from slots such scans have written, the files of its own job |
| ClassMapScan.StoredIsFaithful | crates/vivacity-autoload/src/classmap.rs:584-625 | what one job stores never misleads another |
| ClassMapScan.RunsAgree | crates/vivacity-autoload/src/generator.rs:377-410 | two runs over the same jobs end in the same class map |
| ClassMapScan.JobAfterJob | crates/vivacity-autoload/src/generator.rs:408-410 | files are merged job by job |
| ClassMapScan.ItemIs | crates/vivacity-autoload/src/classmap.rs:627-640 | each with its path below the directory, left out when its path or canonical path is excluded |
| ClassMapScan.SlotsAgreeIff | crates/vivacity-autoload/src/generator.rs:377-407 | what is taken for granted of jobs with one slot: the same files with the same classes; nothing when every job has its own |
| ClassMapScan.FirstDump | crates/vivacity-autoload/src/classmap.rs:584-625 | what is taken for granted of a directory walk, file by file; a first dump starts from sound slots |
| PhpExport.ReadBack | crates/vivacity-autoload/src/templates.rs:157-188 | reading exported text back gives the value and what follows it, at every indent and for all bytes |
| PhpExport.ExportIsInjective | crates/vivacity-autoload/src/templates.rs:157-188 | no two values have the same text |
| PhpExport.VarExport | crates/vivacity-autoload/src/templates.rs:157-188 | the buffer-filling recursion writes that text |
| PhpExport.PhpStrBytes | crates/vivacity-autoload/src/pathutil.rs:18-31 | the escaping loop writes the quoted string |
| ExportLayout.WholeText | crates/vivacity-autoload/src/templates.rs:157-188 | the text is its lines: an array opens and closes on lines of its own, entries stand two columns further in and end in a comma, a nested array begins below its key |
| ExportLayout.QuotedIs | crates/vivacity-autoload/src/pathutil.rs:18-31 | a backslash stands before every quote and backslash and nowhere else |
| ExportLayout.IntIs | crates/vivacity-autoload/src/templates.rs:159 | integers are written in decimal, without leading zeros |

## Left out

- Disk errors, permissions, symbolic links and files that stand where a directory is needed: every step of the install model succeeds.
- What a stop leaves below the root of a package: anything, when it is not recorded in its wanted version; otherwise some of what was there, or some of what a clone puts there, with directories before their content and files perhaps unfinished. A tree cloned in one step (`clonefile` on macOS) is the parameter `sparing`, which takes the wipe before it as one step too.
- InstallPlan.LayoutIsReady: takes for granted that removals at places the plugin gave lie beside each other and beside packages the plugin places now, which the code does not check; what one run leaves otherwise is in InstallLoss, stopped runs are not followed there.
- InstallResults.TouchesIff: the directory `vendor/bin` is not on the modelled disk; the lemmas are about the test that decides whether a run makes it.
- The directory `vendor` is made when the state file is written, not at the start of the run; nothing in between depends on it.
- `path` packages, bin proxies, `vendor/bin`, the runtime stub, installed.php, the report's counters, store warming and downloads.
- Layout.ResolveLayout: the table of composer/installers is one verdict per package; whether the plugin is active and allowed is a parameter, and issues come in any order.
- `target-dir` is taken as written; a value that leads out of its package is not looked into.
- Windows drive letters and UNC paths outside `normalizePath`, `find_shortest_path_code`.
- PlatformCheck.LowestPhp: constraints come parsed (by `ConstraintParser.ParseConstraint`); the `ext-*` and `php-64bit` lines of the test are not modelled.
- 64-bit overflow of version parts, weights and lengths; the cache codec does keep its 32-bit lengths.
- PhpCleaner.Clean: without the early exit for files that hold one type, which rests on a PCRE pattern; class detection itself is a parameter.
- ClassMapScan.ScanAndMerge: jobs with one slot scan the same directory of a store entry, whose files do not change in between.
- ClassMapScan.ScanOnly: relative paths are valid UTF-8; `store` writes other paths lossily, and such a slot would read back another name.
- Exclusion patterns are a predicate on paths; the directory walk is a list of files whose paths are already in normal form.
- ClassLoader.Loader.FindFile: without APCu; PHP turning numeric array keys into integers; file names PHP takes for false.
- StaticCompiler.BuildStatics: paths are compared as given, before `absolute_value`, which both sides apply; the files list and the `.phar` rule are not modelled.
- PSR-4 arrays are compared as maps: their order is not, since the loader never iterates over them.
- Classmap and files autoloading, the text of the generated files around the exported arrays.
- Globbing of directories; of `fnmatch` only the matcher, without the leading-dot rule.
