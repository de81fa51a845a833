# Jostraca, modelled and verified in Dafny

Jostraca generates files and merges what it generates into files people have
edited. This project models the parts of it whose correctness is hard to see by
reading, and proves what the repository promises about them. Everything holds
for all inputs, all runs or all reachable states, unless a row below says
otherwise. Run `dafny verify dfyconfig.toml` to check it.

**The line diff and the merge** (`LcsSpec`, `LcsPaths`, `LcsEngine`, `AlignLaws`,
`Text`, `Markers`, `Recognition`, `Diff3`, `ThreeWay`, `MergeLaws`, `MarkerLaws`,
`MergeView`, `TwoWay`, `DiffView`).
`LcsSpec.Walk` is the textbook longest common subsequence: the whole length
table, walked back from its last corner. The engine never builds that table: it
trims, splits and recurses on two rows, with one tie-break. The main result is
that it nevertheless returns the very same lines, because the largest best split
always lies on the one rightmost optimal path (`LcsSpec.WalkSplits`). Above it,
`Diff3` describes a merge as an ordered list of pieces: anchors kept by all three
texts, and regions with three sides. The merge loop with its three cursors is
proved to write exactly those pieces, and the laws of merging are proved of the
pieces: no side that differs from the baseline is lost, conflicts are exactly the
regions whose three sides are pairwise different, swapping the two new sides
changes nothing in a clean merge, and conflicted output is always recognised, so
markers never nest. `AlignLaws` says which of several equal lines an anchor takes,
`Recognition` exactly which texts count as unresolved, and `MergeView` and `DiffView`
read each side back out of what is written.

**The existing-file protocol** (`FileHandler`, `SaveLaws`, `Protocol`, `HistoryLaws`,
`EditLoss`). One save is a method over the file, its sidecars, its baseline and its
fingerprints, proved against a decision table. `SaveLaws` tells mode by mode, without
the table, what the save leaves behind. `Protocol` then runs saves, run ends and user
edits in any order and proves what the baseline holds, which edits survive, and exactly
when generating the same content again leaves the file alone; `HistoryLaws` proves
which earlier generates are remembered on the way.

**Where files go** (`OutPaths`, `BuildWalk`, `BuildLaws`, `Baselines`). The walk
over a component tree changes a current folder as it goes and composes paths as
text. It is proved against a pure list of places, and succeeds exactly when names
do not step upwards and no two Files belong at one path. `Baselines` does the same
for the text tests that decide whether a file is inside the output folder and
where its baseline is kept.

**The in-memory filesystem and the check** (`PathKeys`, `MemFs`, `MemFsLaws`,
`Shadow`, `CheckLaws`). The volume's directories stay closed under parents, a
snapshot seeds the same volume again, and a check run over the shadow filesystem
depends on nothing at or below the checked folder, up to exactly stated exceptions.

**Two small pieces** (`Calendar`, `Utf16Order`): the closed-form civil date
against the counting loop, and a byte comparison against UTF-16 code-unit order.

Abstractions used throughout: lines are any type with equality in the
subsequence and merge parts and strings where markers matter; file contents are
strings; a path key is a list of segments, with rendering and cleaning proved
inverse to each other (`PathKeys.CleanRendered`); the fingerprint is an arbitrary
function; the formatted clocks in labels are arbitrary strings. Go's path.Clean
is not part of the repository: `OutPaths.CanonOf` and `OutPaths.Text` stand for it.

## Where the code and its documentation differ

- go/diff.go:448-449 calls all the early returns of `Merge` semantics-identical
  to the full merge. The three equality shortcuts are
  (`MergeLaws.ShortcutsAreExact`). The return for a file that still holds markers is
  not: `Merge` agrees with its loop for every generate exactly when the file holds no
  such markers or is still the baseline (`MergeLaws.GuardDecides`). It is there to keep
  such a file as it is (`MarkerLaws.MarkersNeverNest`).
- go/check.go:20-22 says nothing committed can change what the generators produce. One
  thing can: how the checked folder, and each directory above it, shows in the listing
  of the directory it is in. All runs are the same exactly when those are
  (`CheckLaws.RunsIgnoreCommitted`; where no directory above is also a file, only the
  folder itself matters, `CheckLaws.ShowsAtRoot`). A generator that looks for its own
  folder produces a file over one tree and nothing over the other
  (`CheckLaws.LooksAndFinds`, `CheckLaws.LooksInVain`). For the root "/" the check reads
  the committed files themselves (`CheckLaws.PureUnlessRoot`).
- go/check.go:217-253 takes what is in memory for what the generators produce. When a
  generator writes a file below a file, the map holds one or the other by chance of
  Go's map order, and never both (`Shadow.SteadyUnlessNested` gives the exact
  condition, `Shadow.FileBelowFile` the input).
- go/filehandler.go:1118-1120 says the folder test already keeps a baseline below the
  baseline folder, and 852-855 that matching on a boundary keeps two files' baselines
  apart. For files inside the output folder each holds exactly when the folder does not
  end in `..` (`Baselines.ClampIsIdle` with the input of `Baselines.UpwardEscapes`,
  `Baselines.BaselinesApart` with that of `Baselines.UpwardClash`). For files outside it
  the second does not hold: only the write of a baseline asks whether the file is inside
  (go/filehandler.go:455-463), the lookup of a merge does not (362-375), so a file
  outside reads the baseline kept for a file inside, exactly when what it looks up lies
  below the baseline folder (`Baselines.OutsideReadsAnothers`). Every file outside whose
  path takes no step upwards does (`Baselines.OutsideShares`): with the folder `/out`,
  `/other/x` is merged against the baseline of `/out/other/x`.
- go/filehandler.go:380-383 says a file that is byte for byte one of its own earlier
  generates holds nobody's edit. It may: a clean merge that keeps an edit can have the
  bytes of an older generate, and the next run then replaces it (`EditLoss.EditIsLost`).
  Every generate keeps the user's edits exactly unless the file is taken for an earlier
  one (`Protocol.EditsKeptUnlessEarlier`), which it is exactly when it is not the
  baseline and is among the last eight different generates (`HistoryLaws.EarlierExactly`).
- `Vol()` loses a file whose path is also an empty directory: a volume comes back from
  its snapshot exactly when there is none (`MemFsLaws.HistoryRoundTrip`, with the input
  of `MemFsLaws.HistoryLosesFile`).

## Model

| member | source | states |
|---|---|---|
| `LcsSpec.WalkIsLongest` | go/diff.go:257-283 | the reference answer is a common subsequence of both inputs and no common subsequence is longer; its length is the table's corner |
| `LcsSpec.LenCons` | go/diff.go:325-359 | the length table read from the front obeys the same recurrence as read from the back, so a reversed row is a row of suffixes |
| `LcsSpec.UncrossRow` | go/diff.go:302-317 | crossing two optimal paths and uncrossing them never loses a match; the exchange argument the tie-break rests on |
| `LcsSpec.UncrossColumn` | go/diff.go:302-317 | the same exchange for columns |
| `LcsSpec.WalkSuffix` | go/diff.go:272-282 | a common suffix may be cut off and put back without changing one line of the answer |
| `LcsSpec.WalkPrefix` | go/diff.go:263-282 | a common prefix may be cut off and put back without changing one line of the answer |
| `LcsSpec.WalkIsRightmost` | go/diff.go:33-37 | the walk back through the full table and the rightmost path recover the same lines |
| `LcsPaths.RightmostPathEmbeds` | go/diff.go:33-37 | the rightmost path is a longest common embedding: its rows and columns fit those lines into both inputs |
| `LcsPaths.RightmostIsLast` | go/diff.go:33-37 | of all longest common embeddings it stays rightmost: from any row on, none of them first uses a column further right |
| `LcsSpec.LargestBestSplitIsOptimal` | go/diff.go:302-317 | the split the two rows elect loses nothing: the two halves' lengths add up to the whole length |
| `LcsSpec.RightmostSplits` | go/diff.go:33-37 | cutting the second input at the largest best split cuts the rightmost path in two |
| `LcsSpec.WalkSplits` | go/diff.go:302-322 | therefore solving the halves apart and joining them gives the answer for the whole, wherever the first input is cut |
| `LcsSpec.WalkSingle` | go/diff.go:292-300 | for a single line the answer is that line when it occurs and nothing otherwise, so the direction of the scan cannot matter |
| `LcsEngine.LcsRow` | go/diff.go:325-359 | the last of the swapped rows holds, at entry k, the optimal length against the first k lines of b, or the last k when reversed, using one comparison per cell |
| `LcsEngine.Hirschberg` | go/diff.go:287-323 | appends to the buffer exactly the reference answer, within the work bound, whatever the splits |
| `LcsEngine.WorkSplits` | go/diff.go:21-31 | two rows and the two recursive calls fit the bound of the whole call for every split that could be chosen |
| `LcsEngine.WorkBoundIsProduct` | go/diff.go:21-31 | the bound is never more than three comparisons for each pair of lines |
| `LcsEngine.ScanLast` | go/diff.go:292-300 | the base case gives the reference answer for one line in at most one comparison for each line of b |
| `LcsEngine.Lcs` | go/diff.go:258-283 | with both trims the result is the untrimmed reference answer, line for line |
| `LcsEngine.TrimmingIsTransparent` | go/diff.go:263-282 | the answer for three-part inputs is the shared head, the answer for the middles, the shared tail |
| `LcsEngine.AlignLcs` | go/diff.go:361-392 | the nested scans end and fill the array with the earliest fit of the common lines into both inputs |
| `LcsEngine.AlignIsAlignment` | go/diff.go:361-392 | the alignment pairs only equal lines, increases strictly where defined, and pairs as many lines as a longest common subsequence has |
| `LcsEngine.AlignSelf` | go/diff.go:361-392 | a text aligned with itself pairs every line with itself |
| `AlignLaws.AlignIsLeftmost` | go/diff.go:361-392 | however the common lines are found in both texts, the k-th anchor is at a baseline line and a line of the other text no later than theirs: of several equal lines it takes the first one it could |
| `Text.Lines` | go/diff.go:230-255 | the splitting loop yields the one split into newline-terminated lines |
| `Text.LinesOfIsLines` | go/diff.go:230-231 | joining the split gives the text back exactly; every line but the last ends with its only newline |
| `Text.LinesOfJoin` | go/diff.go:230-231 | splitting joined lines gives the same lines back |
| `Text.HasLineAt` | go/diff.go:136-143 | a mark written at the start of a text or after a newline is found, whatever surrounds it |
| `Markers.WriteConflict` | go/diff.go:409-434 | a conflict is written as five runs of lines, each side closed with a newline where it lacks one |
| `Markers.WriteSide` | go/diff.go:420-431 | a side's lines, and a newline after them where the last line has none |
| `Diff3.PartitionIsExact` | go/diff.go:480-573 | the pieces are a partition: concatenated side by side they give back each of the three texts, with nothing twice and nothing missing |
| `Diff3.PiecesCutAtAnchors` | go/diff.go:488-573 | regions and anchors strictly alternate, and the anchors are exactly the baseline lines aligned on both sides, in order |
| `Diff3.ResolutionIsSymmetric` | go/diff.go:488-573 | swapping the two new sides leaves conflicts and clean resolution as they are |
| `Diff3.UntouchedTakesGenerated` | go/diff.go:456-460 | without the shortcut, an untouched file resolves to the new generate without conflict |
| `Diff3.UnchangedGenerateKeepsExisting` | go/diff.go:488-573 | an unchanged generate resolves to the file as it is without conflict |
| `Diff3.AgreementIsKept` | go/diff.go:451-454 | without the shortcut, two equal sides resolve to their common text without conflict |
| `ThreeWay.WriteInsertions` | go/diff.go:494-520 | insertions before an anchor are resolved like a region with an empty baseline |
| `ThreeWay.WriteRegion` | go/diff.go:521-573 | a region takes the side that changed, or both sides as a conflict when both changed differently |
| `ThreeWay.MergeLines` | go/diff.go:474-579 | the loop with three cursors writes exactly the rendered pieces, and flags a conflict exactly when some piece is one |
| `ThreeWay.Merge` | go/diff.go:447-579 | the outcome for every input: which shortcut or guard answers, and the loop's content otherwise |
| `Recognition.RecognisedExactly` | go/diff.go:126-185 | a text is unresolved exactly when from the start of one of its lines on it reads as one of the markers, opening or closing, of either side, under a default label or an explicit one |
| `Recognition.DefaultRecognition` | go/diff.go:126-149 | without explicit labels, exactly when some line starts with one of the four default markers |
| `Recognition.HasLineIs` | go/diff.go:133-138 | searching for a newline and a mark finds exactly the marks at which a line starts |
| `Recognition.AnyMarkIsRecognised` | go/diff.go:140-185 | any one marker left in a file, whichever of the four a label makes, wherever a line may start, is enough |
| `Recognition.ExplicitLabelIsOwn` | go/diff.go:205-226 | an explicit label stands on its own side, a missing one leaves the default |
| `Recognition.ClocksAreOwn` | go/diff.go:212-215 | this run's clock is in the generated label alone and the last run's in the existing label alone, each telling two clocks apart |
| `Recognition.LabelsNameTheirSide` | go/diff.go:205-215 | a default label starts with its side's name, and a kind not given is the operation's |
| `MergeLaws.ShortcutsAreExact` | go/diff.go:448-460 | the three equality shortcuts return what the loop would return, without conflict |
| `MergeLaws.MergeIsLoop` | go/diff.go:448-472 | without unresolved markers, or where two of the three texts are equal, content and conflict flag are the loop's |
| `MergeLaws.GuardDecides` | go/diff.go:462-472 | they are the loop's for every generate exactly when the file holds no unresolved markers or is still the baseline |
| `MergeLaws.FreshGenerateConflicts` | go/diff.go:488-573 | a generate of one line neither other text has conflicts with any changed file |
| `MergeLaws.MergeIsSymmetric` | go/diff.go:480-579 | swapping generated and existing keeps the conflict flag, and the content when there is no conflict |
| `MergeLaws.PieceKeepsEdits` | go/diff.go:474-579 | a side that differs from the baseline stands whole in its region's output and, without a conflict, is that output, so deleted lines stay deleted; a region is a conflict exactly when its three sides are pairwise different |
| `MergeLaws.MergeLosesNoEdit` | go/diff.go:474-579 | the three texts split into the same alternating pieces, the output is resolved piece by piece, each changed side is kept by its piece's output, deletions included, and the conflict flag is exact |
| `MarkerLaws.ConflictIsMarked` | go/diff.go:409-434 | wherever the loop stands, a conflict still to come is written with its opening marker on a line of its own |
| `MarkerLaws.ConflictedMergeIsRecognised` | go/diff.go:136-185 | a conflicted result is recognised as unresolved with the same explicit labels |
| `MarkerLaws.MarkersNeverNest` | go/diff.go:462-472 | merging any later generate into a conflicted result leaves it as it is, unless it equals that generate or the baseline |
| `MarkerLaws.MarkersAreLines` | go/diff.go:409-434 | for any labels, splitting the merged text gives every side's lines unbroken and every marker at the start of a line of its own |
| `MarkerLaws.MarkerLines` | go/diff.go:420-433 | a marker makes complete lines, and one line only when its label has no newline |
| `MergeView.MergeIsReadable` | go/diff.go:409-434 | with default labels and no marker-like line in either text, resolving every conflict of a merged text for one side leaves, region by region, that side's own lines where both changed differently, and what the merge resolved elsewhere |
| `MergeView.ResolvedForOneSide` | go/diff.go:409-434 | so a side that changed every region the other one changed comes back whole, up to a final newline, when all conflicts are resolved for it |
| `TwoWay.Hunks` | go/diff.go:600-653 | the scanning loop yields the runs between the lines common to both texts |
| `TwoWay.HunksRebuildBothSides` | go/diff.go:600-653 | the hunks give back both texts, share exactly a longest common subsequence, are never empty and strictly alternate in kind |
| `AlignLaws.HunksAreLeftmost` | go/diff.go:613-645 | no changed run holds, on either side, the shared line that follows it: each shared line is met where both texts first have it |
| `TwoWay.NothingShared` | go/diff.go:600-653 | two texts without a common line are one changed run |
| `DiffView.WriteBlock` | go/diff.go:663-673 | a block's lines are each closed with a newline and framed by two markers with one label |
| `DiffView.WriteHunks` | go/diff.go:675-686 | shared lines pass through; a changed run is its existing block, then its generated block, an empty one left out |
| `DiffView.Diff` | go/diff.go:655-692 | the whole view, and the change flag, for every pair of texts |
| `DiffView.DiffIsReadable` | go/diff.go:655-692 | with default labels and no input line that looks like a marker, either text can be read back from the view, up to a final newline |
| `DiffView.WholeViewOf` | go/diff.go:655-692 | the whole view of two texts that share no line: the existing text between its own markers, then the generated text between its own |
| `Recognition.ChangedViewIsRecognised` | go/diff.go:655-692 | a view that shows a change is recognised as unresolved under the labels it was written with, so it is never merged into |
| `Recognition.ViewFlags` | go/diff.go:658-692 | the conflict flag and the outcome say exactly whether the texts differ |
| `FileHandler.HasFingerprint` | go/filehandler.go:491-498 | finds a fingerprint exactly when it is remembered |
| `FileHandler.WithFingerprint` | go/filehandler.go:500-515 | the loop forgets older copies, adds the newest and cuts to the newest few |
| `FileHandler.RememberHolds` | go/filehandler.go:67-71 | the history never repeats, never exceeds its limit, ends with the newest, invents nothing and forgets nothing while it is short |
| `HistoryLaws.OldestIsForgotten` | go/filehandler.go:500-515 | the survivors keep their order, and what is forgotten was older than everything kept, with seven others kept beside the newest |
| `HistoryLaws.LastDistinctAreRemembered` | go/filehandler.go:67-71 | however many generates land, remembered are exactly those that landed with at most eight different ones since, themselves included |
| `HistoryLaws.EarlierExactly` | go/filehandler.go:380-385 | over every history, a file is taken for an earlier generate put back exactly when it is not the baseline and is among the last eight different generates that merging saves recorded without a gap |
| `FileHandler.Handler.SaveFile` | go/filehandler.go:716-738 | writes the file, except in a dry run |
| `FileHandler.Handler.SaveMerge` | go/filehandler.go:592-635 | what lands, what is written and what is listed as failed, for every merge outcome |
| `FileHandler.Handler.MergeExisting` | go/filehandler.go:357-418 | the merge arm of the decision table, with or without a baseline, including earlier generates put back |
| `FileHandler.Handler.Reconcile` | go/filehandler.go:330-420 | diff before merge before write: what is written and whether it landed, for every unprotected file |
| `FileHandler.Handler.WriteSidecars` | go/filehandler.go:275-330 | the old bytes are kept beside the file and the new ones offered beside it exactly in the cases the modes ask for |
| `FileHandler.Handler.SaveExisting` | go/filehandler.go:267-420 | all a save does because a file is there: sidecars, failures, the file unless it is still to be written, and whether the generate landed |
| `FileHandler.Handler.Record` | go/filehandler.go:455-488 | the baseline moves on exactly when the generate landed, baselines are kept, the file is inside the folder and the run is real |
| `FileHandler.Handler.Save` | go/filehandler.go:231-489 | the complete state after a save, for every mode mix and control, is the one the decision table gives |
| `FileHandler.Handler.EndRun` | go/buildmeta.go:124-181 | the next run reads what the last save of this run recorded; a dry run records nothing |
| `SaveLaws.ProtectedAnywhere` | go/filehandler.go:285 | a file is protected exactly when the marker occurs in it, anywhere |
| `SaveLaws.AbsentIsWritten` | go/filehandler.go:254-255 | a file that is not there is written under every mode, without sidecar or failure, and counts as landed |
| `SaveLaws.EqualIsLanded` | go/filehandler.go:287-290 | a file that already holds the generate is left alone under every mode, protected or not, and counts as landed |
| `SaveLaws.ProtectedIsLeft` | go/filehandler.go:285-325 | a protected file, its baseline and its history are left alone under every mode; the generate may be offered beside it, whatever write says |
| `SaveLaws.SidecarsOfOpen` | go/filehandler.go:292-322 | the old bytes are kept beside the file exactly under preserve, the new ones offered exactly under present without write, whatever becomes of the file |
| `SaveLaws.WriteDecides` | go/filehandler.go:422-452 | without diff and merge the generate replaces the file exactly when write is on, and else nothing moves |
| `SaveLaws.DiffWritesView` | go/filehandler.go:326-344 | under diff the file becomes the annotated view, with merge or write on or not, and the baseline moves on |
| `SaveLaws.DiffLosesNothing` | go/filehandler.go:326-344 | and both the old file and the generate can be read back out of the new file, up to a final newline, which is itself recognised as unresolved |
| `SaveLaws.LabelsOfRun` | go/filehandler.go:331-335 | a run's labels: its own clock for the generate, the last run's for the file, each with the kind of the operation |
| `SaveLaws.PutBackIsReplaced` | go/filehandler.go:380-391 | under merge a remembered generate that is not the baseline is replaced, with a baseline or without |
| `SaveLaws.NothingToMerge` | go/filehandler.go:395-406 | with nothing to merge against, conflictFail leaves the file and lists it; without it the generate replaces the file exactly when write is on |
| `SaveLaws.MergeDecides` | go/filehandler.go:386-394 | with a baseline, the merge decides whatever write says: unresolved markers leave the file, a conflict leaves it under conflictFail only, each listed for its own reason there, and all else writes the merged text |
| `SaveLaws.MergeOutcomes` | go/diff.go:447-472 | how a merge comes out for a file that differs: the generate where the file is the baseline, the file where it holds unresolved markers, the merged pieces elsewhere |
| `SaveLaws.HalfResolvedIsLeft` | go/diff.go:140-149 | whichever one marker the user left in a file, under whatever clocks it was written, the next merge leaves the file, its baseline and its history alone |
| `SaveLaws.DrySaveTouchesNothing` | go/filehandler.go:716-738 | a dry save touches neither the file, nor its sidecars, nor its baseline |
| `SaveLaws.NextRunReads` | go/buildmeta.go:121-138 | the next run remembers what the last save of this one recorded, nothing when it saved nothing, and what was there before when it was dry |
| `Protocol.BaselineIsLastLanded` | go/filehandler.go:231-489 | over every history of saves, run ends and user edits, the baseline is the content of the last save that landed |
| `Protocol.LandedFile` | go/filehandler.go:257-263 | after a save that landed the file is that content or the diff or merge made from it; after any other save file and baseline are untouched |
| `Protocol.HistoryKeepsEdits` | go/diff.go:445-446 | over every history, a save under merge keeps each piece of the file that differs from the last generate that landed, unless the file is byte for byte a remembered earlier generate |
| `Protocol.EditsKeptUnlessEarlier` | go/filehandler.go:362-418 | over every history, every generate keeps the edits of an unprotected file under merge exactly when the file is not taken for an earlier generate |
| `HistoryLaws.EditsKeptExactly` | go/filehandler.go:362-418 | the same without the table: exactly when the file is the last generate that landed, or is not among the last eight different ones recorded without a gap |
| `Protocol.EarlierIsReplaced` | go/filehandler.go:380-391 | a file taken for an earlier generate is replaced whole by the new one |
| `EditLoss.MergeDropsBoth` | go/diff.go:488-573 | a line the generate dropped and another the user dropped are both gone from a clean merge |
| `EditLoss.EditIsLost` | go/filehandler.go:380-385 | for every fingerprint that tells contents apart and any clocks: a deletion that a clean merge kept is undone by the same generate in the next run, because the merged file has the bytes of the first generate |
| `Protocol.RememberedWasLanded` | go/filehandler.go:480-488 | over every history, only contents that some save landed are remembered |
| `Protocol.EarlierHasLanded` | go/filehandler.go:380-385 | so, with fingerprints that tell contents apart, the bytes of a file taken for an earlier generate are those of a save that landed |
| `Protocol.RemergeKeepsFile` | go/filehandler.go:592-635 | merging a generate that is also the baseline leaves any other file as it is |
| `Protocol.StillDoesNotLand` | go/filehandler.go:357-418 | a save refused or left unresolved is refused or left unresolved again, with the clocks moved on |
| `Protocol.RerunIsStable` | go/filehandler.go:357-418 | under merge, generating the same content in the next run leaves the file byte for byte the same exactly unless it is then one of its own earlier generates |
| `Protocol.RerunsAreStable` | go/filehandler.go:357-418 | with fingerprints that tell contents apart, any number of further runs leave the file as the first one did |
| `Protocol.DryRunChangesNothing` | go/filehandler.go:716-738 | a dry run of any sequence of saves leaves files, baseline and log as they were |
| `Protocol.PreserveLosesNothing` | go/filehandler.go:275-300 | under preserve the bytes a save replaces are in the sidecar or still in the file; a protected file is never touched |
| `Calendar.NextIsNextDay` | rs/src/log.rs:66-85 | the date after a valid date is valid and one day later |
| `Calendar.DateIsUnique` | rs/src/log.rs:66-85 | a day number belongs to one valid date only |
| `Calendar.ClosedFormCountsDays` | rs/src/diff.rs:168-181 | for every day count the closed form yields a valid Gregorian date with exactly that day count |
| `Calendar.CountDays` | rs/src/log.rs:66-85 | the year and month loops yield the valid date with that day count, the same date as the closed form |
| `Calendar.ConsecutiveDates` | rs/src/diff.rs:168-181 | day 0 is 1970-01-01 and consecutive day counts give consecutive dates |
| `Calendar.ClockRebuildsSeconds` | rs/src/diff.rs:156-166 | the clock's fields are in range and rebuild the second count |
| `Utf16Order.JsLess` | go/jsvalue.go:23-50 | on any two valid UTF-8 strings the byte loop answers whether the first one's UTF-16 code units come first |
| `Utf16Order.JsLessIsUtf16Order` | go/jsvalue.go:17-50 | the byte comparison equals UTF-16 code-unit order (section 3 of RFC 3629, section 2.1 of RFC 2781) |
| `Utf16Order.EncodingsDecode` | go/jsvalue.go:17-50 | the two encodings the order is told by stand for the character they were made from (section 3 of RFC 3629, section 2.2 of RFC 2781) |
| `Utf16Order.BeforeIsStrictTotalOrder` | go/jsvalue.go:17-22 | the order is irreflexive, transitive, and total on different strings |
| `Utf16Order.SortedIsUnique` | go/jsvalue.go:65-68 | there is one way only to sort given strings by it |
| `Utf16Order.Utf16Len` | go/jsvalue.go:52-63 | the loop counts the UTF-16 code units of the encoded string |
| `OutPaths.ComposeJoin` | go/filehandler.go:172-184 | cleaning a path joined of two halves is cleaning them one after the other |
| `OutPaths.CanonOfText` | go/filehandler.go:172-184 | cleaning is idempotent: the cleaned text stands for the path it was made from |
| `OutPaths.ComposePlain` | go/filehandler.go:172-184 | a plain name leads one segment down, and a step up from there leads back |
| `OutPaths.ComposeUp` | go/filehandler.go:172-184 | a step up from a root stays there, a relative path keeps the steps up it starts with, a dot and an empty name lead nowhere |
| `OutPaths.SeparatorsAreAlike` | go/filehandler.go:164-170 | a backslash parts a name just as a slash does |
| `OutPaths.CanonicalEnds` | go/filehandler.go:172-184 | the canonical form ends with a separator exactly when the path did or is the root, and stands for the same place |
| `OutPaths.ComposeAllStays` | go/build.go:212-222 | names without a `..` segment only lead further down, in rooted and relative paths |
| `BuildWalk.ValidName` | go/build.go:223-235 | accepts a name exactly when no segment of it, under either separator, is `..` |
| `BuildWalk.BuildCtx.constructor` | go/buildctx.go:37-51 | a walk starts in the output folder, or the working directory, with nothing claimed |
| `BuildWalk.BuildCtx.ProjectBefore` | go/build.go:88-128 | the current folder becomes the cleaned Project folder, absolute or under the output folder; what was current is handed back |
| `BuildWalk.BuildCtx.ProjectAfter` | go/build.go:130-137 | the enclosing folder and project are current again |
| `BuildWalk.BuildCtx.FolderBefore` | go/build.go:237-267 | a Folder extends the current folder by its name, asking for the directory its Files will be in, or fails on its name |
| `BuildWalk.BuildCtx.FolderAfter` | go/build.go:269-274 | takes the last name off the current folder and touches nothing else |
| `BuildWalk.BuildCtx.FileBefore` | go/build.go:276-300 | the text composed from the mutable state is the canonical join of the File's place, claimed once, or the walk fails |
| `BuildWalk.BuildCtx.ClaimFile` | go/build.go:320-333 | a taken path is refused naming both claimants, a free one is recorded |
| `BuildWalk.BuildCtx.Step` | go/build.go:34-58 | every subtree gives the current folder and project back and does what the pure walk does, or fails with the same error |
| `BuildLaws.WalkExactly` | go/build.go:34-58 | from any state, a walk succeeds exactly when names are valid and its paths are new and pairwise distinct, and then claims exactly those paths in tree order |
| `BuildLaws.TreeWalk` | go/build.go:276-333 | a whole walk succeeds exactly for trees with valid names and pairwise distinct File paths, and gives every File the path of its place |
| `BuildLaws.DuplicateIsReal` | go/build.go:302-333 | a refusal names a path that is asked for at least twice |
| `BuildLaws.FilesStayInside` | go/build.go:212-235 | in a successful walk no File's path leaves its nearest Project's folder |
| `BuildLaws.FolderHoldsFile` | go/build.go:253-258 | a File with a plain name lies directly in the directory its Folder asked for |
| `BuildLaws.PlaceIsJoined` | go/build.go:281-293 | a File's path is the canonical form of its folder's text, the Folders' names and its own, joined by separators |
| `BuildLaws.ProjectFolder` | go/build.go:98-118 | an absolute Project folder is where it says, a relative one is in the output folder, without one the Project is the output folder |
| `BuildLaws.ProjectStandsAlone` | go/build.go:88-137 | where a Project's Files belong depends on nothing around it |
| `BuildLaws.SameFolderSamePaths` | go/build.go:276-293 | however a folder was reached, a tree in it has the same Files at the same paths |
| `BuildLaws.NestedFolders` | go/build.go:237-258 | one Folder in another is one Folder named by both, under either separator |
| `Baselines.WithinMeans` | go/filehandler.go:545-580 | for every canonical folder and output path the text test decides whether the folder's segments come first, and below the working directory whether the path starts upwards |
| `Baselines.RelativeMeans` | go/filehandler.go:846-872 | for every folder, the relative path of a file inside it stands for the segments below the folder |
| `Baselines.OutsideRelative` | go/filehandler.go:846-872 | the relative path of a file outside the folder is its whole path |
| `Baselines.BaselineMeans` | go/filehandler.go:362-375 | the baseline of a file inside the folder is at its remaining segments below the baseline folder; the one looked up for a file outside is at all of its segments |
| `Baselines.ClampMeans` | go/filehandler.go:1118-1132 | the clamp passes a baseline exactly when it stays below the baseline folder |
| `Baselines.BaselinesApart` | go/filehandler.go:846-872 | no two files inside the folder share a baseline, exactly when the folder does not end in `..` |
| `Baselines.UpwardClash` | go/filehandler.go:545-580 | for any folder that does, two different files whose baselines are one |
| `Baselines.OutsideReadsAnothers` | go/filehandler.go:362-375 | a file's merge looks up a baseline kept for another file exactly when the file is outside the folder and what it looks up is below the baseline folder |
| `Baselines.OutsideShares` | go/filehandler.go:362-375 | every file outside whose path takes no step upwards does, and which file inside it shares with |
| `Baselines.UpwardEscapes` | go/filehandler.go:545-580 | for any folder that does, a file that passes the folder test and whose baseline the clamp drops |
| `Baselines.ClampIsIdle` | go/filehandler.go:1118-1132 | the clamp has nothing to do, for any file that passes the folder test, exactly when the folder does not end in `..` |
| `Baselines.SettledNeverClamped` | go/filehandler.go:1118-1132 | in a folder that does not, however it was written, the clamp never drops the baseline of a file inside it |
| `PathKeys.CleanIsKey` | go/fs.go:182-205 | cleaning any text yields a canonical key |
| `PathKeys.CleanRendered` | go/fs.go:182-205 | cleaning a key's text gives the key back, so cleaning twice is cleaning once |
| `PathKeys.CleanJoined` | go/fs.go:182-205 | a path joined of two leads where the second leads from where the first does |
| `PathKeys.CleanStep` | go/fs.go:193-203 | one name leads one down, two dots one up and at the root nowhere, a dot or an empty name nowhere |
| `PathKeys.CleanAbsolute` | go/fs.go:182-187 | a path from the root leads to the same place from any working directory |
| `PathKeys.CleanRelative` | go/fs.go:184-187 | a relative path leads where its text does behind the working directory's |
| `PathKeys.DownAndUp` | go/fs.go:193-203 | a step down and back up leads nowhere |
| `PathKeys.PrefixIsBelow` | go/check.go:141-146 | the string test for "below" on a path boundary is the prefix test on segments |
| `MemFs.MemFS.MemClean` | go/fs.go:182-205 | the loop that grows and pops parts computes the canonical key |
| `MemFs.MemFS.MarkDirs` | go/fs.go:326-348 | adds a directory and every directory above it, and nothing else |
| `MemFs.MemFS.WriteLocked` | go/fs.go:261-271 | stores the file and makes every directory above it |
| `MemFs.MemFS.WriteFile` | go/fs.go:254-259 | the same for the key any text cleans to |
| `MemFs.MemFS.ReadFile` | go/fs.go:222-233 | the bytes of the file the text cleans to, or nothing |
| `MemFs.MemFS.WriteFileExcl` | go/fs.go:238-252 | fails on any occupied name and changes nothing, otherwise writes |
| `MemFs.MemFS.Exists` | go/fs.go:273-284 | the root, a file or a directory |
| `MemFs.MemFS.Stat` | go/fs.go:286-310 | the root is a directory, a file hides a directory of its name |
| `MemFs.MemFS.ReadDirAt` | go/fs.go:350-406 | each name below the directory once, reported as a file only if it is one, and as a directory only if a file lies below it or it is no file and a directory is at or below it |
| `MemFs.MemFS.ReadDir` | go/fs.go:350-406 | the same for the key any text cleans to; nothing for a path that is no directory |
| `MemFs.MemFS.MkdirAll` | go/fs.go:312-321 | makes the directory and everything above it |
| `MemFs.MemFS.Remove` | go/fs.go:408-434 | removes a file, else an empty directory, else fails and changes nothing |
| `MemFs.MemFS.Rename` | go/fs.go:436-454 | moves a file, making directories above its new name, or fails and changes nothing |
| `MemFs.MemFS.Vol` | go/fs.go:472-503 | every file, and an absent value for each directory with nothing in it |
| `MemFs.NewSeeded` | go/jostraca.go:124-137 | seeding in any order yields the snapshot's files, its empty directories and all their parents |
| `MemFsLaws.ApplyClosed` | go/fs.go:254-454 | every operation keeps the parent of every entry a directory |
| `MemFsLaws.HistoryClosed` | go/fs.go:254-454 | so does every sequence of operations |
| `MemFsLaws.WriteReads` | go/fs.go:254-271 | a file written reads as written; every other file, and every directory but those above it, is as it was |
| `MemFsLaws.WriteExclReads` | go/fs.go:238-252 | an exclusive write is that where nothing holds the name, and changes nothing elsewhere |
| `MemFsLaws.MkdirReads` | go/fs.go:312-348 | making a directory touches no file, and makes exactly it and those above it |
| `MemFsLaws.RemoveReads` | go/fs.go:408-434 | a removed file is gone and it alone; a directory that is no file goes alone, when nothing is below it; all else is refused and left |
| `MemFsLaws.RenameReads` | go/fs.go:436-454 | a renamed file reads under its new name as under the old one, which is then free; without such a file nothing changes |
| `MemFsLaws.BytesWereWritten` | go/fs.go:254-454 | over every history a file holds bytes that some operation wrote |
| `MemFsLaws.StatAnswers` | go/fs.go:286-310 | a look-up finds exactly the root and what holds the name, a file first, with its size, named by its last segment |
| `MemFsLaws.ListsItsEntries` | go/fs.go:350-406 | in every volume closed under parents, a directory lists exactly the entries directly in it, and none as what it is not |
| `MemFsLaws.SnapshotRoundTrip` | go/fs.go:472-503 | seeding from a snapshot rebuilds the same volume exactly when no file shares its path with an empty directory; the directories always come back |
| `MemFsLaws.HistoryRoundTrip` | go/jostraca.go:124-137 | a reachable volume comes back from its snapshot exactly when no file shares its path with an empty directory, so always when no path is both |
| `MemFsLaws.HistoryLosesFile` | go/fs.go:472-503 | a file written where a directory is then made: the snapshot has no bytes for it and seeding loses it |
| `Shadow.UnderByText` | go/check.go:141-146 | the routing test on text means at or below the root on segments, and for "/" only "/" itself |
| `Shadow.ShadowFS.constructor` | go/check.go:114-121 | a shadow starts empty over its base, with no modes recorded |
| `Shadow.ShadowFS.Resolve` | go/check.go:123-139 | the canonical key of a path, whose text means the same key again |
| `Shadow.ShadowFS.IsUnder` | go/check.go:141-146 | the two string tests decide whether a key is at or below the root |
| `Shadow.ShadowFS.Pick` | go/check.go:148-155 | a read goes to memory at or below the root and to the base elsewhere, with a path that means the same there |
| `Shadow.ShadowFS.ReadFile` | go/check.go:157-160 | answers as the memory at or below the root and as the base elsewhere |
| `Shadow.ShadowFS.Exists` | go/check.go:162-165 | likewise |
| `Shadow.ShadowFS.Stat` | go/check.go:167-170 | likewise |
| `Shadow.ShadowFS.ReadDir` | go/check.go:172-175 | likewise, for every listing the filesystem asked may give |
| `Shadow.ShadowFS.WriteFile` | go/check.go:177-182 | changes the memory, wherever it is aimed, and never the base |
| `Shadow.ShadowFS.MkdirAll` | go/check.go:184-184 | likewise for a directory |
| `Shadow.ShadowFS.Remove` | go/check.go:185-185 | succeeds and fails as the memory does, the base stays as it is |
| `Shadow.ShadowFS.Rename` | go/check.go:187-196 | moves the record of a mode even if the rename then fails, and the file if it does not; the base stays as it is |
| `Shadow.ShadowFS.Chmod` | go/check.go:198-215 | records the permission bits and touches no file |
| `Shadow.ReadsOwnWrites` | go/check.go:150-182 | at or below the root a generator reads back what it wrote, by whatever text it names the path |
| `Shadow.WritesElsewhereAreUnseen` | go/check.go:150-182 | outside it no read is answered differently for a write, listings included |
| `Shadow.ModesMove` | go/check.go:189-215 | after a rename the new path has the recorded mode, the old one none, and no other path's mode changes, whether or not the file moved |
| `Shadow.ShadowFS.Walk` | go/check.go:218-253 | the recursive walk ends, and reads exactly the claimed files it reaches: those with nothing on the way reported as a file and not themselves reported as a directory |
| `Shadow.ShadowFS.Generated` | go/check.go:217-253 | the map is one that the possible listings allow, whatever the volume |
| `Shadow.GeneratedHas` | go/check.go:217-253 | a relative path is generated exactly when the joined path holds a file and does not start in the tool's own folder |
| `Shadow.ReportIsListing` | go/fs.go:361-395 | any choice of files with files below them may be the ones reported as directories |
| `Shadow.SteadyUnlessNested` | go/check.go:217-253 | the walk has one answer, every claimed file by its relative path, exactly when no claimed file lies below another |
| `Shadow.NestedIsLost` | go/check.go:217-253 | where two nest, it may answer with two different maps, each without one of the two |
| `Shadow.FileBelowFile` | go/check.go:217-253 | two writes that reach such a volume |
| `CheckLaws.PureUnlessRoot` | go/check.go:20-31 | any two bases alike outside the root allow a generator, however it reacts, the same runs and the same generated maps; true for every root but "/" and false for that |
| `CheckLaws.OneRunOneMap` | go/check.go:217-253 | for two alike bases and one run, all generated maps are equal exactly when no claimed file lies below another, and are then the claimed files |
| `CheckLaws.CheckIsFunction` | go/check.go:20-31 | for two alike bases that give one answer to each read, complete runs see the same answers and end with the same map, if no file is written below a file |
| `CheckLaws.RunStaysClosed` | go/check.go:177-215 | whatever a generator asks, the memory's directories stay closed under parents |
| `CheckLaws.CommittedTreeIsHidden` | go/check.go:20-31 | two committed trees that agree outside the folder answer alike exactly when the folder, and each directory above it, shows alike in the listing it is in |
| `CheckLaws.ShowsAtRoot` | go/check.go:20-31 | where no directory above the folder is also a file, that is how the folder itself shows |
| `CheckLaws.RunsIgnoreCommitted` | go/check.go:20-31 | they allow every generator the same runs exactly under that condition |
| `CheckLaws.LooksInVain` | go/check.go:20-31 | a generator that writes only if its folder is listed produces nothing over an empty tree, in every complete run |
| `CheckLaws.LooksAndFinds` | go/check.go:20-31 | over a tree that differs only in holding the folder, a complete run of it produces a file |
| `CheckLaws.ModeFollowsFile` | go/check.go:187-215 | a mode asked for on a temporary file is held by the final path alone once the file is renamed into place |
| `CheckLaws.CompareFile` | go/check.go:320-361 | the one way a generated file differs from the committed one, if any |
| `CheckLaws.Compare` | go/check.go:317-364 | the drift lists exactly the differences, once per path, in the order checked, and is empty exactly when the tree is in step |
| `CheckLaws.NoDifference` | go/check.go:90-93 | a tree is in step exactly when no missing file, other bytes or other declared mode can be named |

## Left out

- `LcsEngine.Hirschberg`: counts line comparisons; the memory bound of two rows is visible in `LcsEngine.LcsRow` but not stated.
- `LcsEngine.AlignLcs`: lines are values of any equality type; sameLines (go/diff.go:394-407) is sequence equality here.
- `DiffView.DiffIsReadable`: a missing final newline cannot be read back, because the view adds one.
- `FileHandler.Handler.Save`: one output path at a time; a sidecar or a baseline that is itself an output path, chmod, the temporary file of an atomic write, I/O failures, the audit trail and the lists of files are not modelled.
- `FileHandler.Handler.Save`: whether the path is inside the folder, and not the meta log, is a constant of the handler; `Baselines` models the test itself.
- `FileHandler.Handler.SaveFile`: creating directories, the atomic rename and I/O failures are not modelled.
- `FileHandler.Handler.EndRun`: the log is the fingerprint list itself; its JSON form, the fingerprint pattern and hand-edited logs are not modelled.
- `Protocol.HistoryKeepsEdits`: the file is not taken for an earlier generate put back; `Protocol.EditsKeptUnlessEarlier` shows that edits are lost exactly there.
- `Protocol.RerunsAreStable`: takes the fingerprint to be injective; SHA-256 cut to 16 digits is not part of this model.
- `Calendar.ClosedFormCountsDays`: day counts are natural numbers; the 64-bit and 32-bit widths of the Rust code are not modelled.
- `Utf16Order.SortedIsUnique`: Go's sort itself is not part of this model; invalid UTF-8 is not given a meaning.
- `Utf16Order.Utf16Len`: takes the string as its code points; Go's decoding of invalid bytes is not modelled.
- `BuildWalk.BuildCtx.Step`: components are values and the paths given out are listed in the order of the walk, so the fields written on a node and a shared backing array of the folder path are not captured; saving a File, and the Content, Copy, Inject, Fragment and Slot steps, are taken to succeed and to leave the current folder, project and claims alone.
- `BuildWalk.BuildCtx.FolderBefore`: records that a directory is asked for; creating it is not modelled.
- `Baselines.WithinMeans`: POSIX paths only; drive letters are not modelled.
- `MemFs.MemFS.ReadDirAt`: the listing is a map, so the sorted order of its entries is not captured; a file with a file below it may be reported either way, as Go's map order decides.
- `MemFs.MemFS.Stat`: modification times and the fixed default modes are not modelled, nor is the lock around each operation.
- `MemFs.MemFS.MemClean`: backslashes and drive paths are not modelled.
- `Shadow.ShadowFS.ReadFile`: the base is an in-memory filesystem in the class; `CheckLaws.PureUnlessRoot` allows any relation of reads and answers.
- `Shadow.ShadowFS.Walk`: relative paths are lists of segments rather than joined text, and entries are visited in any order.
- `CheckLaws.Compare`: the committed tree is a map of contents and modes that can be learned; the order of the paths is any order given.
- OsFS, symbolic links, permission bits on disk and temporary names: calls into the operating system.
- The TypeScript engine, and the Rust port apart from its calendar: copies of the same algorithms.
- The template engine, GetX, eject, component definition, option decoding and shape checks: regular expressions, callbacks and plumbing.
