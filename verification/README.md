# Verified models of the DAFTAR operational scripts

DAFTAR's release is guarded by scripts: a bootstrap job that makes the first platform owner, release
gates that build the workspace libraries in dependency order, checkers of the frozen migration
history, a deployment matrix, an archive export with its verifier, and a merge-train check. This
project models what those scripts decide and proves what they are for. Check it with
`dafny verify dfyconfig.toml`.

- **Platform-owner bootstrap** (`Bootstrap`, `BootstrapGuarantees`, `BootstrapAlone`, `BootstrapMain`):
  any number of runs as a state machine, one SQL statement a step, over one database at READ COMMITTED with a
  transaction-scoped advisory lock. Connections are lost and other users sign up at any point.
- **Library build order** (`BuildOrder`, `Library`, `UnfoldedOrder`, `Phase1BuildOrder`, `NamedSearch`,
  `GatesAgreement`, `Phase3BuildOrder`): the three-colour depth-first search of two release gates, as graph
  theorems, as what the order means for the directories under `packages/`, and as the mutable closures.
- **Frozen migration history** (`Migrations`, `Prefix`, `AcceptedPrefixes`, `PrefixRange`, `ManifestCheck`,
  `Boundary`, `Evolution`, `OddNumbers`, `CorrectiveBoundary`, `Rehearsal`, `HistoryDigest`, `UpgradePlan`, `Runner`, `CaseH`): a
  directory is a map from name to digest, a manifest a sequence of entries and a frozen end, names are
  strings in the scripts' own order, and leading numbers are read apart from that order.
- **Text and comparison** (`Catalogue`, `CallScanner`, `Archive`, `Text`, `Splitting`, `StringOrder`): applier-name
  normalisation, the balanced-parenthesis scanner, and the encodings under the digests.
- **Merge train** (`TrainHeads`): the comparison of branch heads over a commit graph.

Code that loops and updates variables is a method with loop invariants, or a class whose fields are the
script's variables, proved equal to a specification function; the theorems are about that function. Each
such function is also pinned without itself: what it reports is reported if and only if it is due, said
of the inputs.
Long functions of the source are split at their loops into several methods.

## What the proofs found

Where a stated intent is not quite what the code does, the exact condition is proved.

- The bootstrap comment reads as if the promote flag suffices. An identity that already holds another
  platform role cannot be promoted, because `platform_role_memberships` is keyed by the user;
  `ExactlyOneCommitsIffEligible` carries the condition, `PromotionNeedsAFreeRole` the instance.
- "Printed once" holds exactly of runs whose connection is not lost: a lost commit acknowledgement, or a
  crash between commit and print, leaves an owner whose password was never shown
  (`PrintedIffNotCutOff`, `PasswordCanBeLost`).
- The report that migrations are out of order cannot occur (`OrderIsNeverTheProblem`).
- `0052a_x.sql` lies in neither prefix range: both prefix checks pass beside it. The deployed rehearsal
  refuses the history, and the manifest guard refuses the file unless the manifest lists it
  (`AppliedSetPassesIffNoGap`, `GapFileSlipsThrough`, `GapFileIsRefused`).
- `00070_x.sql` carries a corrective number but sorts early: the candidate tense passes with it and the
  freeze is refused (`FreezePassesIff`, `OddFileSlipsThrough`). The Phase 2 prefix refuses every such
  file, so a candidate all checks pass freezes cleanly (`OddFileIsRefusedElsewhere`,
  `FirstPrefixLeavesNoOddNumbers`, `BoundaryHolds`).
- A later migration that reuses the last accepted number is refused (`AddKeepsHealthyIff`).
- Once the corrective digests are accepted, the boundary check says no more than the full prefix check
  (`AcceptedTenseIsPrefixCheck`).
- The two build orders differ when there is nothing to build, when a package is named `""`, and when a
  package that shares its name with a later one is built before the search has reached that name;
  otherwise they agree (`GatesAgreeIff`).
- The catalogue comparison counts a family's rows, not how often each occurs. It is exact for a catalogue that
  carries every family if and only if each family's rows are all different or all one row
  (`NoDifferenceDecidesIffSettled`).
  Of the queries behind the families (`scripts/phase2-deployment-authority.ts:1239-1277`) only `policies`
  has no schema filter: a policy of one name on tables of one name in two schemas gives its row twice.
  The rows of every other query begin with a key that is unique in it.
- The archive verifier does not see files its inventory does not list (`ExtraFilesGoUnseen`).

## Model

| member | source | states |
|---|---|---|
| `Bootstrap.InterleavingKeepsInv` | scripts/bootstrap-platform-owner.ts:62-116 | Over every interleaving of any number of runs, with connections lost and users signing up anywhere: exactly the lock holder is inside its transaction, its uncommitted rows and what it has read stay valid, refusals keep their reason, and the committed rows are the initial ones, the sign-ups, and all rows of at most one run |
| `Bootstrap.RunKeepsLock` | scripts/bootstrap-platform-owner.ts:62-66 | A step of a run keeps the advisory lock exclusive: a run is between taking it and ending its transaction exactly when it is the holder |
| `Bootstrap.CommitKeepsTables` | scripts/bootstrap-platform-owner.ts:94-100 | A commit adds all of the run's rows at once and makes it the one winner |
| `Bootstrap.RefusalStands` | scripts/bootstrap-platform-owner.ts:67-84 | The reason of an earlier refusal stays true of the committed rows whatever is committed later |
| `BootstrapGuarantees.MutualExclusion` | scripts/bootstrap-platform-owner.ts:65-66 | At most one run is between taking the lock and ending its transaction |
| `BootstrapGuarantees.AtMostOneCommits` | scripts/bootstrap-platform-owner.ts:67-100 | At most one run ever commits, and none if an owner already existed |
| `BootstrapGuarantees.AllOrNothing` | scripts/bootstrap-platform-owner.ts:71-100 | User, owner membership and audit row of a run are all present or all absent, nothing else changes, and the audit flag says truly whether the identity pre-existed |
| `BootstrapGuarantees.PasswordsKept` | scripts/bootstrap-platform-owner.ts:75-84 | No pre-existing identity, password included, is ever changed |
| `BootstrapGuarantees.PrintedIffNotCutOff` | scripts/bootstrap-platform-owner.ts:100-115 | A run's password is printed if and only if the run has ended after committing a user it created and its connection was lost neither at the commit nor at any other time; what is printed is that run's own password, and belongs to that user |
| `BootstrapGuarantees.PasswordCanBeLost` | scripts/bootstrap-platform-owner.ts:100-115 | From any state about to commit a new owner there are two ends with the owner committed and the password never printed: the acknowledgement lost, or a crash between commit and print |
| `BootstrapGuarantees.ExactlyOneCommitsIffEligible` | scripts/bootstrap-platform-owner.ts:65-100 | When every run has ended undisturbed and there was no owner, exactly one run committed if and only if some run was eligible: its email is new, or the promote flag is given and the identity holds no platform role |
| `BootstrapGuarantees.PromotionNeedsAFreeRole` | infrastructure/database/migrations/0009_admin.sql:5-13 | The promote flag alone is not enough: an existing identity with another platform role cannot be promoted, so nobody commits |
| `BootstrapGuarantees.RunStepDecreases` | scripts/bootstrap-platform-owner.ts:62-116 | Every statement of a run strictly lowers a global measure, so no schedule runs for ever |
| `BootstrapGuarantees.NextStatement` | scripts/bootstrap-platform-owner.ts:62-116 | A run that has not ended has a next statement whenever it holds the lock or the lock is free |
| `BootstrapGuarantees.EveryRunCanEnd` | scripts/bootstrap-platform-owner.ts:65-115 | From every reachable state all runs can still end: refused runs release the lock and block nobody |
| `BootstrapGuarantees.AnOwnerCanAlwaysBeMade` | scripts/bootstrap-platform-owner.ts:65-100 | From every reachable undisturbed state without an initial owner, the protocol can end with exactly one owner if a run is eligible, and with none otherwise |
| `BootstrapMain.Database.BootstrapOwner` | scripts/bootstrap-platform-owner.ts:34-116 | The script's transaction run alone commits exactly when there is no owner and it is eligible; then all its rows are there and a password is printed exactly for a new user; otherwise nothing changes; and its outcome is that of a schedule of the protocol with one run |
| `BootstrapGuarantees.CountDecides` | scripts/bootstrap-platform-owner.ts:67-70 | The count the script tests is positive exactly when some membership is an owner's |
| `BootstrapGuarantees.OwnersCounted` | scripts/bootstrap-platform-owner.ts:67-100 | In every reachable state the number of owners is the initial number, plus one when a run has won, and then it is one |
| `BootstrapMain.Database.FindUser` | scripts/bootstrap-platform-owner.ts:72-72 | The lookup finds a user exactly when the email is taken |
| `BuildOrder.VisitedKeepsInv` | scripts/phase1-release-gate.ts:92-106 | A visit keeps the trail duplicate-free, along real dependency edges and equal to the set marked visiting; keeps every earlier mark; and finishes the package |
| `BuildOrder.MarkKeepsInv` | scripts/phase1-release-gate.ts:99-99 | Marking a package visiting puts it on the trail and keeps the invariant |
| `BuildOrder.FinishKeepsInv` | scripts/phase1-release-gate.ts:104-105 | Marking a package built takes it off the trail, appends it to the order once, and keeps dependencies before dependents while nothing is reported |
| `BuildOrder.SearchEnds` | scripts/phase1-release-gate.ts:107-108 | The whole search ends with no name on the trail and every package in the order |
| `BuildOrder.OrderListsEveryPackageOnce` | scripts/phase1-release-gate.ts:92-108 | With or without cycles the order is a permutation of the packages |
| `BuildOrder.ReportsAreGenuine` | scripts/phase1-release-gate.ts:95-98 | Every report is a walk along dependency edges back to a name already on it |
| `BuildOrder.ReportsIffCycle` | scripts/phase1-release-gate.ts:86-109 | A problem is reported if and only if the known packages depend on each other in a cycle, self-dependency included |
| `BuildOrder.NoReportMeansDependenciesFirst` | scripts/phase1-release-gate.ts:92-108 | When nothing is reported every known dependency stands strictly before each package that needs it |
| `BuildOrder.LastOfNameIsKnown` | scripts/phase1-release-gate.ts:88-88 | Of packages that share a name, the last is the one the name stands for |
| `Phase1BuildOrder.LibrarySearch.Visit` | scripts/phase1-release-gate.ts:92-106 | The recursive closure over the mutable state, order and problems changes them as the search function says, and terminates |
| `Phase1BuildOrder.LibraryBuildOrder` | scripts/phase1-release-gate.ts:54-109 | With distinct directories and names, the order holds exactly the directories of entries with a name and a build script, each once; unless something is reported, what an entry declares under `@daftar/` stands strictly before it; and something is reported if and only if such declarations form a cycle. In any case order and problems are those of the search |
| `Phase3BuildOrder.NameSearch.Visit` | scripts/phase3-release-gate.ts:327-339 | The second gate's closure, keyed by name, changes its variables as its search function says, and terminates |
| `Phase3BuildOrder.LibraryBuildOrder` | scripts/phase3-release-gate.ts:300-343 | The same over the entries with a non-empty name and a build script; and, names shared or not, the empty-order problem is reported if and only if there is no such entry |
| `Library.SearchMeansOrder` | scripts/phase1-release-gate.ts:86-109 | Whatever packages stand for the library entries in their order, each with its entry's `@daftar/` dependencies strictly sorted, the search orders and reports as the two rows above say |
| `Library.ReportsIffEntryCycle` | scripts/phase1-release-gate.ts:86-109 | Something is reported if and only if library entries declare each other by name in a cycle |
| `Phase1BuildOrder.PackagesSelected` | scripts/phase1-release-gate.ts:54-84 | The packages are those of the entries with a name and a build script, in the entries' order, each with its distinct `@daftar/` dependencies in name order |
| `Phase3BuildOrder.NamedPackagesSelected` | scripts/phase3-release-gate.ts:302-321 | The same for a non-empty name, with the dependencies as this gate visits them |
| `Phase3BuildOrder.NothingSelectedIff` | scripts/phase3-release-gate.ts:341-341 | The empty-order problem is reported if and only if no entry has a non-empty name and a build script |
| `UnfoldedOrder.OrderIsUnfolding` | scripts/phase1-release-gate.ts:86-108 | Without a cycle the order is what a search that remembers nothing would build: every package preceded by all its dependencies again and again, packages and dependencies in their own order, and each name kept at its first mention |
| `UnfoldedOrder.NoReportIffRanked` | scripts/phase1-release-gate.ts:86-109 | Nothing is reported if and only if the packages can be ranked above what they depend on, so that such a search ends |
| `NamedSearch.DependencyListsAgree` | scripts/phase3-release-gate.ts:313-336 | Scoping then deduplicating and deduplicating then scoping sort to the same dependency list |
| `GatesAgreement.NamedSearchesAgree` | scripts/phase3-release-gate.ts:300-343 | For distinctly and non-emptily named packages the second search is the first with packages replaced by their directories: same marks, same order, same reports |
| `GatesAgreement.GatesAgreeIff` | scripts/phase3-release-gate.ts:294-343 | For any directory the two gates give the same order and the same reports in the same sequence if and only if there is a package to build, none has the empty name, and every package that shares its name with a later one comes after the search has reached that name |
| `GatesAgreement.ReachedIsMarked` | scripts/phase1-release-gate.ts:92-107 | Between roots the marked names are exactly those the earlier roots lead to along dependency edges |
| `GatesAgreement.DistinctNamesAreNotShadowed` | scripts/phase1-release-gate.ts:86-109 | With distinct names the last condition holds |
| `GatesAgreement.SharedNameDivides` | scripts/phase3-release-gate.ts:294-343 | Two directories with one package name and no dependencies divide the gates |
| `Migrations.FourDigitNumber` | scripts/phase3-prefix.ts:134-139 | For a four-digit name the number read by the range test is the number of its head |
| `Migrations.FourDigitOrder` | scripts/phase3-prefix.ts:134-139 | Among four-digit names numeric order is name order |
| `AcceptedPrefixes.LiteralsAreNumbered` | scripts/phase3-prefix.ts:68-115 | The accepted literals are contiguously numbered 0000 to 0052, 0053 to 0069 and 0053 to 0073, the slice prefix is the first seventeen entries of the full one, and Phase 3 follows Phase 2 in the manifest |
| `Prefix.CheckPrefix` | scripts/phase3-prefix.ts:141-181 | The check with its loops over literal, directory and manifest gives exactly the specified problems, whatever order the directory is listed in; what they mean is in the rows `PassesIffAccepts`, `ReportedIffDue` and, of the names' own text, `PassesIffClear` |
| `Prefix.CheckFiles` | scripts/phase2-prefix.ts:118-126 | The literal's files are compared with the directory one by one |
| `Prefix.FilesInRange` | scripts/phase3-prefix.ts:156-158 | The filtered and sorted listing is the sorted set of files in the range |
| `Prefix.CheckRange` | scripts/phase2-prefix.ts:128-135 | Unaccepted files in the range are reported; the out-of-order report only when there is nothing else |
| `Prefix.CheckManifestEntries` | scripts/phase3-prefix.ts:170-176 | The manifest positions of the literal are compared one by one |
| `Prefix.CheckStragglers` | scripts/phase3-prefix.ts:177-179 | Later manifest entries in the range are reported |
| `Prefix.JoinedTextDecides` | scripts/phase2-prefix.ts:128-131 | For a listing that holds every expected name, comparing the newline-joined listings decides their equality, whatever characters stray names hold |
| `Prefix.JoinedTextMisleads` | scripts/phase2-prefix.ts:128-131 | With an expected name missing it can mislead: one file whose name spells the whole list joins to the list's text |
| `Prefix.PassesIffAccepts` | scripts/phase3-prefix.ts:141-181 | The check returns nothing if and only if disk digests, disk range, manifest positions, later entries and frozen floor all agree with the literal (Phase 2 and Phase 3 alike) |
| `Prefix.ReportedIffDue` | scripts/phase3-prefix.ts:141-181 | Each problem, with its names, digests and manifest position, is reported if and only if it is due; a file beyond the literal is due only while the joined listings differ |
| `Prefix.OrderIsNeverTheProblem` | scripts/phase2-prefix.ts:134-134 | The out-of-order problem is never reported |
| `Prefix.OnlyTheRangeMatters` | scripts/phase3-prefix.ts:134-181 | Files and later manifest entries outside the range never change the answer |
| `Prefix.PassingCoversFirstPart` | scripts/phase3-prefix.ts:93-101 | Passing the full prefix implies passing every first part of it, the slice prefix included |
| `PrefixRange.NumberOfIff` | scripts/phase3-prefix.ts:134-139 | The number the range test reads is the decimal value of the name's digits before an underscore, any number of digits, and there is one exactly when the name starts so |
| `PrefixRange.InRangeIffClaims` | scripts/phase3-prefix.ts:134-139 | A name is in the range if and only if its number lies between the first and last accepted numbers or it sorts between the first and last accepted names; for the prefix that starts the history there is no lower end |
| `PrefixRange.PassesIffClear` | scripts/phase2-prefix.ts:109-151 | The check returns nothing if and only if every accepted file is on disk at its digest, every `.sql` file on disk that the prefix claims by number or by place is an accepted one, the floor is at or past the end, the manifest has the accepted entries at their places, and no later entry has a claimed name |
| `PrefixRange.UnclaimedFileNeverMatters` | scripts/phase2-prefix.ts:109-135 | Adding, changing or removing a file that is no `.sql` file or is not claimed never changes the answer |
| `PrefixRange.UnclaimedEntryNeverMatters` | scripts/phase2-prefix.ts:144-150 | Appending a manifest entry that is not claimed never changes the answer |
| `PrefixRange.UnpaddedNumberIsRefusedByPhase2` | scripts/phase2-prefix.ts:109-111 | The Phase 2 check refuses every directory with `7_x.sql` in it |
| `ManifestCheck.CheckManifest` | scripts/check-migration-manifest.ts:23-61 | The guard finds nothing if and only if the manifest has entries, every frozen entry is on disk at its digest, and every file up to the frozen end is an entry; each violation, with its digests, is reported if and only if it is due, holes only over an untouched history |
| `ManifestCheck.CheckEntries` | scripts/check-migration-manifest.ts:31-46 | The frozen-entry loop reports a file deleted or modified, with both digests, if and only if it is |
| `ManifestCheck.FindHoles` | scripts/check-migration-manifest.ts:54-59 | The second loop finds exactly the holes in the frozen history |
| `Boundary.BoundaryProblems` | scripts/phase3-corrective-gate.ts:257-299 | The check in either tense, with its loops, reports exactly the specified problems |
| `Boundary.CandidateTense` | scripts/phase3-corrective-gate.ts:271-279 | The candidate branch reports differing files, a moved boundary and premature freezes |
| `Boundary.AcceptedTense` | scripts/phase3-corrective-gate.ts:280-298 | The accepted branch reports missing, changed and unfrozen files, a low floor and wrong names |
| `Boundary.CandidateReportedIffDue` | scripts/phase3-corrective-gate.ts:269-279 | Each problem of the candidate tense, with its names and values, is reported if and only if it is due |
| `Boundary.AcceptedTenseReportedIffDue` | scripts/phase3-corrective-gate.ts:280-298 | Each problem of the accepted tense, with its names and digests, is reported if and only if it is due |
| `Boundary.CandidatePassesIff` | scripts/phase3-corrective-gate.ts:269-279 | The candidate tense passes if and only if the slices are intact, exactly the declared files come after them, the manifest ends on the boundary and holds none of the declared files |
| `Boundary.RecordedAccepted` | scripts/phase3-corrective-gate.ts:265-265 | Under an accepted prefix the manifest's last record of each accepted name is the accepted digest |
| `Boundary.LastEntryIsRecorded` | scripts/phase3-corrective-gate.ts:265-265 | The manifest's record of a name is that of its last entry of the name |
| `Boundary.AcceptedTenseIsPrefixCheck` | scripts/phase3-corrective-gate.ts:280-298 | With the corrective digests accepted, the boundary check passes if and only if the full prefix check does: the branch's own tests never decide |
| `Boundary.TensesExclude` | scripts/phase3-corrective-gate.ts:257-299 | No tree passes both tenses, whatever digests are accepted |
| `Evolution.FreezePassesIff` | scripts/phase3-corrective-gate.ts:67-87 | Freezing a candidate yields a tree that passes the accepted tense if and only if its manifest held exactly the slices, the corrective files have the accepted digests, and no file carries an accepted number without sorting after the boundary |
| `Evolution.FourDigitNamesAreNotOdd` | scripts/phase3-prefix.ts:134-139 | With four-digit names only, that last condition holds |
| `CorrectiveBoundary.TheCorrectiveBoundary` | scripts/phase3-corrective-gate.ts:67-87 | The pinned boundary is entry seventeen of the full Phase 3 prefix, so a candidate manifest holds exactly 70 entries; Phase 3 follows Phase 2 and its numbers span less than a tenfold |
| `OddNumbers.OddNumberIsEarly` | scripts/phase3-prefix.ts:134-139 | A name before a four-digit start whose number is past the start's, and under ten times it, sorts no later than the last name of the number before |
| `CorrectiveBoundary.FirstPrefixLeavesNoOddNumbers` | scripts/phase2-prefix.ts:109-151 | A tree that passes the Phase 2 prefix has no file with an odd number |
| `CorrectiveBoundary.CheckedFreezePassesIff` | scripts/phase3-corrective-gate.ts:67-87 | The freeze of a candidate that passes the Phase 2 prefix passes the accepted tense if and only if its manifest held exactly the slices and the corrective files have the accepted digests |
| `CorrectiveBoundary.OddFileSlipsThrough` | scripts/phase3-corrective-gate.ts:257-299 | With `00070_x.sql` in the directory a candidate still passes its tense, and its freeze is refused |
| `CorrectiveBoundary.OddFileIsRefusedElsewhere` | scripts/phase2-prefix.ts:109-151 | The Phase 2 prefix refuses that file, and so does the manifest guard unless the manifest lists it |
| `Evolution.AddKeepsHealthyIff` | scripts/phase3-prefix.ts:134-181 | Adding a later four-digit migration keeps a healthy tree healthy if and only if its number is past the accepted end: a second `0073_` file is refused |
| `Evolution.FreezeKeepsHealthy` | scripts/check-migration-manifest.ts:31-59 | Freezing every later file at its digest keeps both prefix checks and the manifest guard passing |
| `Evolution.EvolutionKeepsHealthy` | scripts/phase3-corrective-gate.ts:280-298 | Any run of later additions and freezes keeps both prefix checks and the manifest guard passing |
| `CorrectiveBoundary.BoundaryHolds` | scripts/phase3-corrective-gate.ts:257-299 | From a candidate that passes the other checks, with a manifest of just the slices and the accepted corrective digests, through its freeze and any later run: accepted tense, first prefix and manifest guard all pass |
| `CorrectiveBoundary.CandidateExists` | scripts/phase3-corrective-gate.ts:257-299 | Every such history has a candidate that passes every check and whose freeze is healthy |
| `CorrectiveBoundary.TheAcceptedHistoryPasses` | scripts/phase3-prefix.ts:68-115 | The candidate built from the accepted Phase 2 and Phase 3 prefixes passes every check with 70 entries, and so does its freeze |
| `Rehearsal.CheckAppliedSet` | scripts/phase3-deployed-rehearsal.ts:127-153 | Whatever was applied and whatever the history holds: nothing is reported if and only if the applied set is the files on disk in name order and the sorted history begins with the prefix, name by name and digest by digest; and each report, with the missing and extra files or the place and values, is given if and only if it is due |
| `Rehearsal.AppliedSetPassesIff` | scripts/phase3-deployed-rehearsal.ts:135-151 | The check passes if and only if what was applied is the files on disk in name order and the sorted history begins with the prefix |
| `Rehearsal.ReportedIffDue` | scripts/phase3-deployed-rehearsal.ts:135-151 | Each problem is reported if and only if it is due: missing is on disk and not applied, extra is applied and not on disk, and the history's problems name their place and what was found there |
| `Rehearsal.SortedHistoryIsOrdered` | scripts/phase3-deployed-rehearsal.ts:145-145 | The history is compared in name order, no row lost or added |
| `Rehearsal.SortedRowNames` | scripts/phase3-deployed-rehearsal.ts:145-145 | Sorting a history with unique names gives its names in name order and loses no row |
| `Rehearsal.DirectoryBeginsWithPrefixes` | scripts/phase3-deployed-rehearsal.ts:121-126 | Without a file between the prefixes, the sorted directory begins with exactly the Phase 2 names then the Phase 3 names |
| `Rehearsal.GapBreaksPrefixes` | scripts/phase3-deployed-rehearsal.ts:145-151 | A file sorting between the prefixes pushes the second out of its place |
| `Rehearsal.AppliedSetPassesIffNoGap` | scripts/phase3-deployed-rehearsal.ts:127-153 | For a directory that passes both checks, deployed in name order at its digests, the rehearsal accepts the history if and only if no file sorts between the prefixes |
| `Rehearsal.FourDigitNamesLeaveNoGap` | scripts/phase3-prefix.ts:134-139 | When every `.sql` name has a four-digit head, passing both checks leaves no such file |
| `Rehearsal.GapFileSlipsThrough` | scripts/phase3-prefix.ts:134-139 | `0052a_x.sql` is in neither range: both prefix checks still pass with it; the manifest guard takes it for a hole unless the manifest lists it |
| `Rehearsal.GapFileIsRefused` | scripts/phase3-deployed-rehearsal.ts:127-153 | The rehearsal refuses the deployed history of every tree with that file |
| `Rehearsal.AcceptedPrefixesFollow` | scripts/phase3-prefix.ts:109-115 | The accepted prefixes are such a pair |
| `HistoryDigest.HistoryDifferences` | scripts/phase3-deployed-rehearsal.ts:156-168 | The two loops over the name maps report exactly the specified differences |
| `HistoryDigest.LastOfNameIsKnown` | scripts/phase3-deployed-rehearsal.ts:158-159 | Of rows that share a name, the last is the one compared |
| `HistoryDigest.NoDifferenceIffSameRows` | scripts/phase3-deployed-rehearsal.ts:156-168 | With unique names nothing is reported if and only if the two snapshots hold the same rows |
| `HistoryDigest.ReportedIffDue` | scripts/phase3-deployed-rehearsal.ts:156-168 | Each difference is reported if and only if it is due: added, removed, changed digest or re-applied, with the right names, digests and times |
| `HistoryDigest.LineInjective` | scripts/phase3-deployed-rehearsal.ts:205-205 | A line determines its row when name and digest hold no space |
| `HistoryDigest.LineReadsBack` | scripts/phase3-deployed-rehearsal.ts:205-205 | A line split at its spaces begins with the name, then the digest, and the time is the rest |
| `HistoryDigest.DigestTextReadsBack` | scripts/phase3-deployed-rehearsal.ts:202-208 | The text split at its newlines is one line a row, in name order |
| `HistoryDigest.NoDifferenceIffSameText` | scripts/phase3-deployed-rehearsal.ts:156-208 | Nothing is reported if and only if the texts under the two digests are identical, whatever order the rows arrive in |
| `HistoryDigest.DigestPinsHistory` | scripts/phase3-deployed-rehearsal.ts:202-208 | Unless the hash collides on the two texts, equal digests and no differences are one finding |
| `UpgradePlan.MakePlan` | scripts/phase2-deployment-authority.ts:424-445 | The loop that moves the previous boundary builds exactly the specified plan |
| `UpgradePlan.PlanMeans` | scripts/phase2-deployment-authority.ts:424-445 | Step by step, the plan goes from the furthest of the base and the heads before to its own head and expects exactly the files between, in name order; the last step takes every later file |
| `UpgradePlan.ReportedIffDue` | scripts/phase2-deployment-authority.ts:428-441 | Each problem of the base or of a head, with the boundary it falls behind, is reported if and only if it is due |
| `UpgradePlan.PlanCoversEveryFile` | scripts/phase2-deployment-authority.ts:424-445 | For any files, base and heads, even bad ones, the base followed by all steps is exactly the sorted file list |
| `UpgradePlan.NoProblemIffHeadsAscend` | scripts/phase2-deployment-authority.ts:432-441 | The plan has no problem if and only if base and heads are on disk and the heads come after the base without going backwards |
| `Runner.Database.RunMigrations` | apps/api/src/infra/migrate.ts:71-122 | For every history, directory and set of files whose SQL raises: the run stops at the first file in name order that is recorded at another digest or is unrecorded and raises, saying which of the two it is, and does not stop without one; it applies exactly the unrecorded files before it in name order; and the history is the old one and those files at their digests |
| `Runner.RunMeansWhat` | apps/api/src/infra/migrate.ts:88-119 | The same of the specification function that the other runner theorems are about |
| `Runner.RunAppliesTheRest` | apps/api/src/infra/migrate.ts:88-115 | Over an untampered directory a run applies, in name order, exactly the files not yet in the history, at their digests |
| `Runner.RunTwiceAppliesNothing` | apps/api/src/infra/migrate.ts:98-102 | Running again applies nothing and changes nothing |
| `Runner.StoppedRunIsAPrefix` | apps/api/src/infra/migrate.ts:95-119 | Whatever stops a run, what it applied is a first part of the pending files |
| `CaseH.UpgradeTo` | scripts/phase2-deployment-authority.ts:607-611 | From the files up to one boundary, a run over the files up to another applies exactly those between and leaves those up to the further |
| `CaseH.OneShot` | scripts/phase2-deployment-authority.ts:1065-1100 | One run over the whole directory records every file at its digest |
| `CaseH.Walk` | scripts/phase2-deployment-authority.ts:1065-1100 | For any base and heads the walk's every run applies exactly what its step expects, and ends in the history of a one-shot deployment |
| `CaseH.Upgrade` | scripts/phase2-deployment-authority.ts:1089-1101 | One step of the walk applies exactly its files and moves the history to its boundary |
| `Splitting.SplitThenJoin` | scripts/phase2-deployment-authority.ts:251-251 | Splitting and joining on one separator changes nothing |
| `Splitting.JoinThenSplit` | scripts/phase2-deployment-authority.ts:251-251 | Pieces that do not hold the separator, joined by it, are read back exactly, for a separator whose first character it does not hold again |
| `Splitting.PiecesHoldNoSeparator` | scripts/phase2-deployment-authority.ts:251-251 | No piece of a split holds the separator |
| `Catalogue.NormaliseThenRestore` | scripts/phase2-deployment-authority.ts:249-252 | Normalisation is undone exactly by putting the applier back, for every token-free row and every applier |
| `Catalogue.NormalisedInjective` | scripts/phase2-deployment-authority.ts:249-252 | Rows normalised under one applier are equal only if the originals were |
| `Catalogue.NormalisedAcrossAppliers` | scripts/phase2-deployment-authority.ts:239-252 | Rows normalised under two appliers are equal exactly when they are the same but for the applier |
| `Catalogue.TokenRowCollides` | scripts/phase2-deployment-authority.ts:251-251 | A row that spells the token collides with the row that names the applier |
| `Catalogue.CatalogueDifferences` | scripts/phase2-deployment-authority.ts:213-237 | The loop over the families reports exactly the specified differences |
| `Catalogue.ReportedIffDue` | scripts/phase2-deployment-authority.ts:213-237 | Each difference of a family, with its counts or its rows on either side, is reported if and only if it is due |
| `Catalogue.LiteralFamiliesAreKept` | scripts/phase2-deployment-authority.ts:239-252 | The `schema` and `extensions` rows are kept as they are; in every other family the applier is replaced by `<applier>` row by row |
| `Catalogue.NoDifferenceIffSame` | scripts/phase2-deployment-authority.ts:213-237 | Nothing is reported if and only if every family is in both snapshots with the same rows and as many of them |
| `Catalogue.NoDifferenceIsAnEquivalence` | scripts/phase2-deployment-authority.ts:213-237 | No differences is symmetric and transitive, and reflexive exactly on snapshots that carry every family |
| `Catalogue.NoDifferenceIffPermuted` | scripts/phase2-deployment-authority.ts:226-234 | For a family whose rows are all different or all one row, no difference means the same rows in some order, and only that |
| `Catalogue.RepeatedRowsHide` | scripts/phase2-deployment-authority.ts:226-234 | Two families of three rows that differ in which row is repeated are not told apart |
| `Catalogue.CountDecidesIffSettled` | scripts/phase2-deployment-authority.ts:226-234 | The same rows and as many of them are the same rows as often, for every other family, if and only if the rows are all different or all one row |
| `Catalogue.NoDifferenceDecidesIffSettled` | scripts/phase2-deployment-authority.ts:213-237 | No difference means the same rows as often in every family, for every other catalogue, if and only if the catalogue lacks a family or all its families are so |
| `Catalogue.SettledCataloguesCompareExactly` | scripts/phase2-deployment-authority.ts:213-237 | For such a catalogue nothing is reported if and only if the other holds the same rows as often |
| `Catalogue.NormalisingHidesNothing` | scripts/phase2-deployment-authority.ts:239-252 | For token-free rows, normalising both catalogues under one applier hides no difference and makes none |
| `CallScanner.KeyComparisonCallArguments` | scripts/phase2-s3-gate.ts:432-447 | The nested loops return exactly the specified arguments and terminate on every source |
| `CallScanner.ReadArgument` | scripts/phase2-s3-gate.ts:436-444 | The inner loop finds the text up to the closing parenthesis, or finds that there is none |
| `CallScanner.ScanFindsMatch` | scripts/phase2-s3-gate.ts:436-444 | The counting scan stops at a parenthesis if and only if the text before it is balanced by the grammar |
| `CallScanner.MarkersDoNotOverlap` | scripts/phase2-s3-gate.ts:435-435 | Continuing after a marker skips no marker |
| `CallScanner.ScannerFindsEveryCall` | scripts/phase2-s3-gate.ts:431-447 | The scanner returns, in order, the argument of every call that closes, nested calls included, and omits exactly the calls that never close |
| `CallScanner.ArgumentIsUnique` | scripts/phase2-s3-gate.ts:431-447 | A call has one argument |
| `Archive.Export` | scripts/export-release.ts:149-236 | The export's loops and refusals give exactly the specified outcome |
| `Archive.CopyAndHash` | scripts/export-release.ts:164-177 | The loop copies each listed file and records its path and digest, or stops at the first credential |
| `Archive.ZipCountIff` | scripts/export-release.ts:230-236 | The entry count is right if and only if no path is listed twice and none is the manifest's |
| `Archive.ExportedIff` | scripts/export-release.ts:149-236 | A tree is exported if and only if no name is forbidden, no file holds a credential, no migration is past the frozen end, paths are distinct and none is the manifest's |
| `Archive.RefusalIsDue` | scripts/export-release.ts:149-236 | A refusal says why: the first forbidden name; else the first file with a credential; else the migrations past the frozen end, all of them in name order; else the count of entries |
| `Archive.DeliveredManifest` | scripts/export-release.ts:189-220 | An exported tree's manifest lists each file with its digest and size in order, how many there are, the frozen end, and the digest of the inventory's text |
| `Archive.ExportedTreeVerifies` | scripts/phase2-release-gate.ts:288-311 | Every exported tree verifies with no problem and holds each listed file at its own bytes |
| `Archive.TrackedManifestWouldFail` | scripts/export-release.ts:230-236 | Without the count check, a tracked manifest would fail its own verification unless the digests agree |
| `Archive.ArchiveMatchesItsManifest` | scripts/phase2-release-gate.ts:288-311 | On every disk, with a delivery manifest or without, each problem is reported if and only if it is due: a listed file missing, a listed file altered, a tree hash that is not the recorded one; none is due without a manifest |
| `Archive.ArchivePassesIff` | scripts/phase2-release-gate.ts:288-311 | On every disk nothing is reported if and only if there is no `DELIVERY_MANIFEST.json`, or every entry is held at its digest and the recomputed tree hash is the recorded one |
| `Archive.ReportedIffDue` | scripts/phase2-release-gate.ts:288-311 | The method's promise of the specification function |
| `Archive.CleanIff` | scripts/phase2-release-gate.ts:296-310 | No problem if and only if every entry is on disk at its digest and the recomputed tree hash is the recorded one |
| `Archive.TreeTextInjective` | scripts/export-release.ts:205-205 | The text under the tree hash determines every path and digest in order, for newline-free paths and fixed-width digests |
| `Archive.LineReadsBack` | scripts/export-release.ts:205-205 | A line split at its colons ends with the digest, and the rest is the path |
| `Archive.TreeTextReadsBack` | scripts/export-release.ts:205-205 | The text split at its newlines is one line an item, in order |
| `Archive.NewlinePathCollides` | scripts/export-release.ts:205-205 | A newline in a path breaks that: one file and two can share a text |
| `Archive.SameTreeSameText` | scripts/export-release.ts:193-206 | Over listings in path order the texts are the same if and only if the two trees hold the same paths at the same digests |
| `Archive.SameTreeSameHash` | scripts/export-release.ts:193-206 | The tree hashes of two deliveries listed in path order are equal if and only if the delivered files are the same, unless the hash collides on them |
| `Archive.SameTreeHashSameContent` | scripts/phase2-release-gate.ts:288-311 | Two trees that verify under the same tree hash hold identical bytes at every inventory path, unless the hash collides |
| `Archive.TamperingShows` | scripts/phase2-release-gate.ts:296-310 | After an export exactly the changed files are reported altered and the dropped ones missing |
| `Archive.ExtraFilesGoUnseen` | scripts/phase2-release-gate.ts:287-311 | A file the inventory does not list is never reported |
| `TrainHeads.CheckTrain` | scripts/check-train-heads.ts:194-231 | The exit status is zero if and only if the self-test was asked for, or the train is non-empty, names no option, and every pair was read and is one full object name |
| `TrainHeads.SelfTest` | scripts/check-train-heads.ts:156-192 | All ten controls of the self-test hold |
| `TrainHeads.AllSameIff` | scripts/check-train-heads.ts:147-153 | Every row is the same if and only if every branch is identical on both sides |
| `TrainHeads.VerdictComparesHistories` | scripts/check-train-heads.ts:45-57 | Over any acyclic graph with both heads present the verdict compares the two histories as sets of commits: equal, smaller, larger, or neither inside the other |
| `TrainHeads.SwappingSides` | scripts/check-train-heads.ts:45-57 | Swapping sides swaps ahead and behind and keeps same, diverged and unknown |
| `TrainHeads.UnknownIffMissing` | scripts/check-train-heads.ts:51-55 | The unknown verdict is given exactly for two different full heads of which one object is missing |
| `TrainHeads.SameOnFullNamesOnly` | scripts/check-train-heads.ts:37-50 | Same is said only of one full name, and a malformed name is an error, never a verdict |
| `TrainHeads.AbsenceIsNamed` | scripts/check-train-heads.ts:46-47 | A branch absent on origin is called that, here or not; absent locally means there and not here |
| `TrainHeads.FullNameIff` | scripts/check-train-heads.ts:33-39 | A full name is forty or sixty-four digits of `0123456789abcdef` |
| `TrainHeads.MalformedNameIsNamed` | scripts/check-train-heads.ts:35-49 | A malformed name is an error that names its side, the local one first |
| `TrainHeads.RowsAreTheBranches` | scripts/check-train-heads.ts:147-153 | The report has one row a branch in order, with both heads as read and their verdict; or it is the failure of the first branch that fails |
| `Text.JoinLinesInjective` | scripts/phase3-deployed-rehearsal.ts:202-208 | Non-empty newline-free lines joined with newlines are read back exactly |
| `Text.SortIsUnique` | scripts/phase3-prefix.ts:156-158 | A sort has one result |
| `StringOrder.LessIsUnitOrder` | scripts/phase3-prefix.ts:134-139 | The order of names is the dictionary order of their UTF-16 code units |

## Left out

- Strings are sequences of Unicode scalar values, compared in UTF-16 code unit order; lone surrogates, and splitting a supplementary character by an empty separator, are not modelled.
- GatesAgreement.GatesAgreeIff: a directory lists each entry once, as file systems do.
- Library.SearchMeansOrder: stated for distinct directories and distinct names; what the gates do when names are shared is `GatesAgreeIff`.
- The order of `localeCompare` is not modelled: packages arrive in the order it gave them, and the build-order theorems hold for every order.
- Problem messages are datatype values; their wording and shortened digests are left out.
- SHA-256, argon2, UTF-8 and JSON are function parameters; where a digest must tell two texts apart, the lemma says so.
- Bootstrap: argument, email and principal checks, randomness and output formatting are left out; emails are already normalised, and the generated password and its hash are given with the run.
- Bootstrap: other programs may add users at any time, but never delete users, change passwords or change platform roles.
- Bootstrap: a run that waits for another transaction's uncommitted row is a run whose step is not enabled; deadlock detection and lock timeouts are connection losses.
- Prefix.CheckPrefix: the Phase 2 and Phase 3 checks are one method with the manifest offset and the open lower end as parameters.
- AcceptedPrefixes.LiteralsAreNumbered: file names are rebuilt from their number and the rest of the name, with the accepted digests.
- Boundary.BoundaryProblems: the accepted digests are a sequence of entries in the order of the source's record.
- Evolution.EvolutionKeepsHealthy: a later freeze takes every file after the frozen end; who decides to freeze is not modelled.
- Runner.Database.RunMigrations: the runner hashes a file's text decoded from UTF-8 (`apps/api/src/infra/migrate.ts:96-97`) where the prefix checks hash its bytes; the model gives a file one digest for both, so it does not capture files that are not valid UTF-8. Lending and taking back schema privileges, and the SQL itself, are left out; a file either succeeds or raises, recorded digests are non-empty, and runs are serialised by the session lock.
- CaseH.Walk: database creation and the catalogue comparison that ends the case are left out; the comparison itself is `Catalogue`.
- CallScanner.ReadArgument: the inner loop of the scanner is a method of its own.
- Archive.Export: which files must be tracked, the clean-tree check, the manifest's descriptive fields and migration digests, and zipping are left out; the zip holds one entry a file, and the rules for forbidden names and credentials are parameters.
- Archive.SameTreeSameText: that the version-control index lists paths in the byte order of their UTF-8 is taken from that tool; the listing reaches the export in that order.
- Archive.ArchiveMatchesItsManifest: every path names a file, and the delivery manifest parses.
- TrainHeads.CheckTrain: running git and parsing its output are left out; what it answers are parameters, and the ancestry theorems take it to answer by reachability among the commits at hand.
- The regular-expression scans of SQL and TypeScript text in the slice gates, the ledger, currency and inventory engines, cluster, process, browser and log handling, key installation, gate verdict loops, and localisation and toolchain checks are not part of this model.
