/** Whole histories of one tracked output path: saves under any mix of modes, the ends
    of runs, and a user who edits or deletes the file in between. */
module Protocol {
  import opened Options
  import opened Text
  import opened Diff3
  import opened Markers
  import opened ThreeWay
  import opened MergeLaws
  import opened MarkerLaws
  import opened DiffView
  import opened FileHandler

  datatype Event =
    | Edit(file: Option<string>)
    | Save(content: string, modes: Modes, control: Control)
    | EndRun

  const START := State(None, None, None, None, [], None, [])

  /** Baselines are kept and writes are real. */
  predicate Recorded(control: Control) {
    control.duplicate && !control.dryrun
  }

  ghost predicate AllRecorded(events: seq<Event>) {
    forall e | e in events && e.Save? :: Recorded(e.control)
  }

  ghost function Step(fingerprint: string -> Fingerprint, st: State, e: Event): State {
    match e
    case Edit(file) => st.(file := file)
    case Save(content, modes, control) => Saved(fingerprint, true, st, content, modes, control)
    case EndRun => NextRun(st, false)
  }

  ghost function History(fingerprint: string -> Fingerprint, events: seq<Event>): State {
    if events == [] then START
    else Step(fingerprint, History(fingerprint, events[..|events| - 1]), events[|events| - 1])
  }

  ghost predicate Lands(fingerprint: string -> Fingerprint, st: State, e: Event) {
    e.Save? && Landed(FateOf(fingerprint, st, e.content, e.modes, e.control))
  }

  /** The content of the last save that landed, by searching the history backwards. */
  ghost function LastLanded(fingerprint: string -> Fingerprint, events: seq<Event>): Option<string> {
    if events == [] then None
    else
      var before, e := events[..|events| - 1], events[|events| - 1];
      if Lands(fingerprint, History(fingerprint, before), e) then Some(e.content) else LastLanded(fingerprint, before)
  }

  /** Over every history, the baseline is the content of the last save that landed. */
  lemma {:induction false} BaselineIsLastLanded(fingerprint: string -> Fingerprint, events: seq<Event>)
    requires AllRecorded(events)
    ensures History(fingerprint, events).baseline == LastLanded(fingerprint, events)
  {
    if events != [] {
      hide FateOf;
      var before, e := events[..|events| - 1], events[|events| - 1];
      assert forall x :: x in before ==> x in events;
      BaselineIsLastLanded(fingerprint, before);
    }
  }

  /** After a save that landed the file holds the generate, or the diff or the merge
      made from it and the file that was there; after any other it is as it was. */
  lemma LandedFile(fingerprint: string -> Fingerprint, st: State, content: string, modes: Modes, control: Control)
    requires Recorded(control)
    ensures var after := Saved(fingerprint, true, st, content, modes, control);
            if Lands(fingerprint, st, Save(content, modes, control)) then
              && after.baseline == Some(content)
              && (|| after.file == Some(content)
                  || (st.file.Some? && modes.diff
                      && after.file == Some(DiffOf(content, st.file.value, SpecFor(control, "diff")).content))
                  || (st.file.Some? && modes.merge && st.baseline.Some?
                      && var r := MergeOf(content, st.baseline.value, st.file.value, SpecFor(control, "merge"));
                         r.outcome != Unresolved && !(r.conflict && modes.conflictFail) && after.file == Some(r.content)))
            else after.file == st.file && after.baseline == st.baseline
  {
    hide MergeOf, DiffOf, Protected, Remember, SpecFor;
  }

  // --- The user's edits ---------------------------------------------------------------

  /** A file that some run of the same path may have to merge: it is there, differs from
      the new generate, is not protected and is no earlier generate put back. */
  ghost predicate NeedsMerge(fingerprint: string -> Fingerprint, st: State, content: string) {
    && st.file.Some? && st.file.value != content && !Protected(st.file.value)
    && !IsEarlier(fingerprint, st.file.value, st.baseline, st.prior)
  }

  /** The file after a merge: as it was, the generate itself where the file was still
      the baseline, or pieces that keep every side differing from the baseline. */
  ghost predicate KeepsEdits(after: Option<string>, content: string, last: string, existing: string, labels: DiffLabels, i: nat)
    requires i < |PiecesOf(content, last, existing)|
  {
    var ps := PiecesOf(content, last, existing);
    || after == Some(existing)
    || (existing == last && after == Some(content))
    || (&& Join(Flatten(ps, Existing)) == existing && Join(Flatten(ps, Base)) == last
        && after == Some(Join(Render(ps[..i], labels)) + Join(RenderPiece(ps[i], labels)) + Join(Render(ps[i + 1..], labels)))
        && (ps[i].Region? ==> KeepsSide(ps[i].existing, ps[i], labels)))
  }

  lemma MergeFateIs(fingerprint: string -> Fingerprint, st: State, content: string, modes: Modes, control: Control)
    requires Recorded(control) && modes.merge && !modes.diff
    requires NeedsMerge(fingerprint, st, content) && st.baseline.Some?
    ensures var after := Saved(fingerprint, true, st, content, modes, control);
            var last, existing := st.baseline.value, st.file.value;
            || after.file == st.file
            || (existing == last && after.file == Some(content))
            || after.file == Some(LoopContent(content, last, existing, LabelsOf(SpecFor(control, "merge"), "merge")))
  {
    hide Protected, Remember, LabelsOf, HasConflicts, LoopContent, LoopConflict, IsEarlier;
  }

  /** Over every history, a save under merge keeps what the user changed since the last
      generate that landed. */
  lemma HistoryKeepsEdits(fingerprint: string -> Fingerprint, events: seq<Event>, content: string,
                          modes: Modes, control: Control, i: nat)
    requires AllRecorded(events) && Recorded(control) && modes.merge && !modes.diff
    requires NeedsMerge(fingerprint, History(fingerprint, events), content)
    requires LastLanded(fingerprint, events).Some?
    requires i < |PiecesOf(content, LastLanded(fingerprint, events).value, History(fingerprint, events).file.value)|
    ensures var st := History(fingerprint, events);
            KeepsEdits(Saved(fingerprint, true, st, content, modes, control).file, content,
                       LastLanded(fingerprint, events).value, st.file.value,
                       LabelsOf(SpecFor(control, "merge"), "merge"), i)
  {
    hide Saved, LabelsOf, SpecFor, PiecesOf, Join, Render, RenderPiece, Flatten, KeepsSide, History, LastLanded,
         LoopConflict, IsEarlier, Protected, Alternate;
    BaselineIsLastLanded(fingerprint, events);
    var st := History(fingerprint, events);
    var last, existing := LastLanded(fingerprint, events).value, st.file.value;
    MergeFateIs(fingerprint, st, content, modes, control);
    MergeLosesNoEdit(content, last, existing, LabelsOf(SpecFor(control, "merge"), "merge"), i);
  }

  /** The file is about to be taken for an earlier generate put back. */
  ghost predicate TakenForEarlier(fingerprint: string -> Fingerprint, st: State, content: string) {
    && st.file.Some? && st.file.value != content && !Protected(st.file.value)
    && IsEarlier(fingerprint, st.file.value, st.baseline, st.prior)
  }

  /** A file taken for an earlier generate is replaced whole. */
  lemma EarlierIsReplaced(fingerprint: string -> Fingerprint, st: State, content: string, modes: Modes, control: Control)
    requires Recorded(control) && modes.merge && !modes.diff && TakenForEarlier(fingerprint, st, content)
    ensures Saved(fingerprint, true, st, content, modes, control).file == Some(content)
  {
    hide Remember, MergeOf, Protected, IsEarlier;
  }

  /** So a generate of one line unknown to such a file and its baseline keeps nothing of
      what the user changed. */
  lemma EarlierLosesEdits(fingerprint: string -> Fingerprint, st: State, modes: Modes, control: Control)
    requires Recorded(control) && modes.merge && !modes.diff
    requires st.file.Some? && !Protected(st.file.value) && st.baseline.Some?
    requires IsEarlier(fingerprint, st.file.value, st.baseline, st.prior)
    ensures var last, existing := st.baseline.value, st.file.value;
            var content, labels := FreshLine(last, existing), LabelsOf(SpecFor(control, "merge"), "merge");
            && content != existing && |PiecesOf(content, last, existing)| > 0
            && !KeepsEdits(Saved(fingerprint, true, st, content, modes, control).file, content, last, existing, labels, 0)
  {
    var last, existing := st.baseline.value, st.file.value;
    var content, labels := FreshLine(last, existing), LabelsOf(SpecFor(control, "merge"), "merge");
    hide FreshLine, LabelsOf, SpecFor, Saved, Protected, KeepsEdits, PiecesOf, LoopContent;
    EarlierIsReplaced(fingerprint, st, content, modes, control);
    FreshLineKeepsNothing(last, existing, labels);
  }

  lemma FreshLineKeepsNothing(last: string, existing: string, labels: DiffLabels)
    requires existing != last
    ensures var line := FreshLine(last, existing);
            |PiecesOf(line, last, existing)| > 0 && !KeepsEdits(Some(line), line, last, existing, labels, 0)
  {
    hide PiecesOf, Join, Render, RenderPiece, Flatten, KeepsSide, LoopContent, FreshLine;
    FreshLineIsNoMerge(last, existing, labels);
    PieceInPlace(FreshLine(last, existing), last, existing, labels, 0);
  }

  /** Merging a line unknown to both other texts does not give that line. */
  lemma FreshLineIsNoMerge(last: string, existing: string, labels: DiffLabels)
    requires existing != last
    ensures var line := FreshLine(last, existing);
            line != LoopContent(line, last, existing, labels) && |PiecesOf(line, last, existing)| > 0
  {
    hide PiecesOf, LoopContent, HasLine, FreshLine;
    var line := FreshLine(last, existing);
    FreshGenerateConflicts(last, existing);
    assert |PiecesOf(line, last, existing)| > 0;
    hide LoopConflict;
    LoopConflictIsMarked(line, last, existing, labels);
    var mark := MARK_START + labels.existing + "\n";
    assert mark[|mark| - 1] == NEWLINE;
    HasLineChar(LoopContent(line, last, existing, labels), mark, NEWLINE);
  }

  /** Over every history: for an unprotected file under merge, every generate keeps what
      the user changed since the last one that landed, exactly unless the file is byte
      for byte a remembered earlier generate. */
  lemma EditsKeptUnlessEarlier(fingerprint: string -> Fingerprint, events: seq<Event>, modes: Modes, control: Control)
    requires AllRecorded(events) && Recorded(control) && modes.merge && !modes.diff
    requires var st := History(fingerprint, events); st.file.Some? && !Protected(st.file.value)
    requires LastLanded(fingerprint, events).Some?
    ensures var st := History(fingerprint, events);
            var last, existing := LastLanded(fingerprint, events).value, st.file.value;
            (forall content: string, i: nat | content != existing && i < |PiecesOf(content, last, existing)| ::
               KeepsEdits(Saved(fingerprint, true, st, content, modes, control).file, content, last, existing,
                          LabelsOf(SpecFor(control, "merge"), "merge"), i))
            <==> !IsEarlier(fingerprint, existing, st.baseline, st.prior)
  {
    hide Saved, LabelsOf, SpecFor, PiecesOf, KeepsEdits, History, LastLanded, IsEarlier, Protected;
    BaselineIsLastLanded(fingerprint, events);
    var st := History(fingerprint, events);
    var last, existing := LastLanded(fingerprint, events).value, st.file.value;
    if IsEarlier(fingerprint, existing, st.baseline, st.prior) {
      EarlierLosesEdits(fingerprint, st, modes, control);
    } else {
      forall content: string, i: nat | content != existing && i < |PiecesOf(content, last, existing)|
        ensures KeepsEdits(Saved(fingerprint, true, st, content, modes, control).file, content, last, existing,
                           LabelsOf(SpecFor(control, "merge"), "merge"), i)
      {
        HistoryKeepsEdits(fingerprint, events, content, modes, control, i);
      }
    }
  }

  // --- Earlier generates put back ---------------------------------------------------------

  ghost predicate LandsAt(fingerprint: string -> Fingerprint, events: seq<Event>, i: nat)
    requires i < |events|
  {
    Lands(fingerprint, History(fingerprint, events[..i]), events[i])
  }

  /** Some save of the history landed with content of this fingerprint. */
  ghost predicate WasLanded(fingerprint: string -> Fingerprint, events: seq<Event>, fp: Fingerprint) {
    exists i | 0 <= i < |events| :: LandsAt(fingerprint, events, i) && fingerprint(events[i].content) == fp
  }

  lemma WasLandedStays(fingerprint: string -> Fingerprint, events: seq<Event>, e: Event, fp: Fingerprint)
    requires WasLanded(fingerprint, events, fp)
    ensures WasLanded(fingerprint, events + [e], fp)
  {
    hide FateOf, Landed, History;
    var i :| 0 <= i < |events| && LandsAt(fingerprint, events, i) && fingerprint(events[i].content) == fp;
    assert (events + [e])[..i] == events[..i];
    assert LandsAt(fingerprint, events + [e], i);
  }

  lemma LandsLast(fingerprint: string -> Fingerprint, events: seq<Event>, e: Event)
    requires Lands(fingerprint, History(fingerprint, events), e)
    ensures WasLanded(fingerprint, events + [e], fingerprint(e.content))
  {
    hide FateOf, Landed, History;
    assert (events + [e])[..|events|] == events;
    assert LandsAt(fingerprint, events + [e], |events|);
  }

  ghost predicate Remembers(st: State, fp: Fingerprint) {
    fp in st.prior || (st.entry.Some? && fp in st.entry.value)
  }

  /** What one event adds to the remembered fingerprints is that of a save that lands. */
  lemma StepRemembers(fingerprint: string -> Fingerprint, st: State, e: Event, fp: Fingerprint)
    requires Remembers(Step(fingerprint, st, e), fp)
    ensures Remembers(st, fp) || (Lands(fingerprint, st, e) && fp == fingerprint(e.content))
  {
    hide FateOf, Remember;
    if e.Save? {
      RememberInvents(st.prior, fingerprint(e.content));
    }
  }

  /** Over every history, only contents that landed are remembered. */
  lemma {:induction false} RememberedWasLanded(fingerprint: string -> Fingerprint, events: seq<Event>, fp: Fingerprint)
    requires Remembers(History(fingerprint, events), fp)
    ensures WasLanded(fingerprint, events, fp)
  {
    if events != [] {
      hide Step, Lands, Remembers, WasLanded;
      var before, e := events[..|events| - 1], events[|events| - 1];
      assert events == before + [e];
      StepRemembers(fingerprint, History(fingerprint, before), e, fp);
      if Remembers(History(fingerprint, before), fp) {
        RememberedWasLanded(fingerprint, before, fp);
        WasLandedStays(fingerprint, before, e, fp);
      } else {
        LandsLast(fingerprint, before, e);
      }
    } else {
      hide WasLanded;
    }
  }

  /** The bytes of a file taken for an earlier generate put back are, over every history,
      the content of some save that landed. They may still be the outcome of an edit. */
  lemma EarlierHasLanded(fingerprint: string -> Fingerprint, events: seq<Event>)
    requires Injective(fingerprint)
    requires var st := History(fingerprint, events);
             st.file.Some? && IsEarlier(fingerprint, st.file.value, st.baseline, st.prior)
    ensures exists i | 0 <= i < |events| ::
      LandsAt(fingerprint, events, i) && Some(events[i].content) == History(fingerprint, events).file
  {
    hide FateOf, Landed, History;
    var st := History(fingerprint, events);
    RememberedWasLanded(fingerprint, events, fingerprint(st.file.value));
    var i :| 0 <= i < |events| && LandsAt(fingerprint, events, i) && fingerprint(events[i].content) == fingerprint(st.file.value);
    assert events[i].content == st.file.value;
  }

  // --- Generating the same content again ------------------------------------------------

  /** Merging a generate that is also the baseline leaves any other file alone. */
  lemma RemergeKeepsFile(content: string, existing: string, spec: DiffSpec)
    requires existing != content
    ensures var r := MergeOf(content, content, existing, spec);
            r.content == existing && !r.conflict
  {
    ShortcutsAreExact(content, content, existing, LabelsOf(spec, "merge"));
    hide LoopContent, LoopConflict, HasConflicts, LabelsOf;
  }

  /** With default labels, the clocks decide nothing but the text of a conflict. */
  lemma ClocksDecideNothing(content: string, base: string, existing: string, one: Control, two: Control)
    ensures var r := MergeOf(content, base, existing, SpecFor(one, "merge"));
            var q := MergeOf(content, base, existing, SpecFor(two, "merge"));
            r.outcome == q.outcome && r.conflict == q.conflict
  {
    hide LoopContent, LoopConflict, HasConflicts, LabelsOf;
  }

  /** The first of two runs that generate the same content. */
  ghost function FirstRun(fingerprint: string -> Fingerprint, st: State, content: string, modes: Modes, control: Control): State {
    NextRun(Saved(fingerprint, true, st, content, modes, control), false)
  }

  /** The clocks do not decide whether a save lands. */
  lemma ClocksDecideNoLanding(fingerprint: string -> Fingerprint, st: State, content: string, modes: Modes, one: Control, two: Control)
    requires Recorded(one) && Recorded(two) && modes.merge && !modes.diff
    ensures Landed(FateOf(fingerprint, st, content, modes, one)) == Landed(FateOf(fingerprint, st, content, modes, two))
  {
    ClocksDecideNothing(content, st.baseline.GetOr(""), st.file.GetOr(""), one, two);
    hide MergeOf, Protected, SpecFor, IsEarlier;
  }

  /** A run in which a save did not land leaves nothing behind. */
  lemma NotLandedIsKept(fingerprint: string -> Fingerprint, st: State, content: string, modes: Modes, control: Control)
    requires Recorded(control) && modes.merge && !modes.diff
    requires !Lands(fingerprint, st, Save(content, modes, control))
    ensures var again := FirstRun(fingerprint, st, content, modes, control);
            again.file == st.file && again.baseline == st.baseline && again.prior == st.prior
    ensures !TakenForEarlier(fingerprint, st, content)
  {
    hide MergeOf, Protected, Remember, SpecFor, IsEarlier;
  }

  /** Neither a save's fate nor what it is taken for depends on more of the state than this. */
  lemma FateOfSame(fingerprint: string -> Fingerprint, st: State, again: State, content: string, modes: Modes, control: Control)
    requires again.file == st.file && again.baseline == st.baseline && again.prior == st.prior
    ensures FateOf(fingerprint, again, content, modes, control) == FateOf(fingerprint, st, content, modes, control)
    ensures TakenForEarlier(fingerprint, again, content) == TakenForEarlier(fingerprint, st, content)
  {
    hide MergeFate, Protected, DiffOf, IsEarlier;
  }

  /** A save that did not land does not land the next time either. */
  lemma StillDoesNotLand(fingerprint: string -> Fingerprint, st: State, content: string, modes: Modes, one: Control, two: Control)
    requires Recorded(one) && Recorded(two) && modes.merge && !modes.diff
    requires !Lands(fingerprint, st, Save(content, modes, one))
    ensures var again := FirstRun(fingerprint, st, content, modes, one);
            && again.file == st.file && again.baseline == st.baseline && again.prior == st.prior
            && !Lands(fingerprint, again, Save(content, modes, two))
            && !TakenForEarlier(fingerprint, again, content)
  {
    hide FateOf, FirstRun, TakenForEarlier, Landed;
    NotLandedIsKept(fingerprint, st, content, modes, one);
    ClocksDecideNoLanding(fingerprint, st, content, modes, one, two);
    FateOfSame(fingerprint, st, FirstRun(fingerprint, st, content, modes, one), content, modes, two);
  }

  /** Under merge, generating the same content again in the next run leaves the file
      byte for byte the same, whatever the first run did to it, exactly unless the file
      is then taken for one of its earlier generates. */
  lemma RerunIsStable(fingerprint: string -> Fingerprint, st: State, content: string, modes: Modes, one: Control, two: Control)
    requires Recorded(one) && Recorded(two) && modes.merge && !modes.diff
    ensures var first := FirstRun(fingerprint, st, content, modes, one);
            (Saved(fingerprint, true, first, content, modes, two).file == first.file)
            <==> !TakenForEarlier(fingerprint, first, content)
  {
    var first := FirstRun(fingerprint, st, content, modes, one);
    if !Lands(fingerprint, st, Save(content, modes, one)) {
      StillDoesNotLand(fingerprint, st, content, modes, one, two);
      LandedFile(fingerprint, first, content, modes, two);
    } else {
      LandedFile(fingerprint, st, content, modes, one);
      hide MergeOf, Protected, Remember, SpecFor, IsEarlier;
      assert first.baseline == Some(content) && first.file.Some?;
      if first.file.value != content {
        RemergeKeepsFile(content, first.file.value, SpecFor(two, "merge"));
      }
    }
  }

  // --- Any number of runs ---------------------------------------------------------------

  ghost predicate Injective(fingerprint: string -> Fingerprint) {
    forall x, y :: fingerprint(x) == fingerprint(y) ==> x == y
  }

  /** One run per clock, each generating the same content. */
  ghost function Runs(fingerprint: string -> Fingerprint, st: State, content: string, modes: Modes, clocks: seq<Control>): State
    decreases |clocks|
  {
    if clocks == [] then st
    else Runs(fingerprint, FirstRun(fingerprint, st, content, modes, clocks[0]), content, modes, clocks[1..])
  }

  /** Once a file is settled for this content it stays settled. */
  lemma SettledStays(fingerprint: string -> Fingerprint, st: State, content: string, modes: Modes, one: Control, two: Control)
    requires Injective(fingerprint) && Recorded(one) && Recorded(two) && modes.merge && !modes.diff
    requires !TakenForEarlier(fingerprint, FirstRun(fingerprint, st, content, modes, one), content)
    ensures var first := FirstRun(fingerprint, st, content, modes, one);
            var second := FirstRun(fingerprint, first, content, modes, two);
            second.file == first.file && !TakenForEarlier(fingerprint, second, content)
  {
    var first := FirstRun(fingerprint, st, content, modes, one);
    RerunIsStable(fingerprint, st, content, modes, one, two);
    WithoutHolds(first.prior, fingerprint(content));
    RememberInvents(first.prior, fingerprint(content));
    hide FateOf, Protected, Remember, SpecFor, Without;
    var second := FirstRun(fingerprint, first, content, modes, two);
    assert second.file == first.file;
    if TakenForEarlier(fingerprint, second, content) {
      assert fingerprint(second.file.value) in second.prior;
      assert fingerprint(second.file.value) != fingerprint(content);
      assert fingerprint(first.file.value) in first.prior;
      if first.baseline == Some(first.file.value) {
        BaselineFileLands(fingerprint, first, content, modes, two);
      }
      assert false;
    }
  }

  lemma RememberInvents(fps: seq<Fingerprint>, fp: Fingerprint)
    ensures forall f :: f in Remember(fps, fp) ==> f in fps || f == fp
  {
    WithoutHolds(fps, fp);
  }

  /** A file that is its own baseline is replaced by any other generate. */
  lemma BaselineFileLands(fingerprint: string -> Fingerprint, st: State, content: string, modes: Modes, control: Control)
    requires Recorded(control) && modes.merge && !modes.diff
    requires st.file.Some? && st.file.value != content && st.baseline == st.file && !Protected(st.file.value)
    ensures Saved(fingerprint, true, st, content, modes, control).file == Some(content)
  {
    hide Protected, Remember, SpecFor, LoopContent, LoopConflict, HasConflicts;
  }

  /** However many more runs generate the same content, the file stays as the first of
      them left it, unless it is then taken for an earlier generate. */
  lemma {:induction false} RerunsAreStable(fingerprint: string -> Fingerprint, st: State, content: string,
                                           modes: Modes, one: Control, clocks: seq<Control>)
    requires Injective(fingerprint) && modes.merge && !modes.diff && Recorded(one)
    requires forall c | c in clocks :: Recorded(c)
    requires !TakenForEarlier(fingerprint, FirstRun(fingerprint, st, content, modes, one), content)
    ensures var first := FirstRun(fingerprint, st, content, modes, one);
            Runs(fingerprint, first, content, modes, clocks).file == first.file
    decreases |clocks|
  {
    if clocks != [] {
      hide FirstRun, TakenForEarlier, Injective;
      var first := FirstRun(fingerprint, st, content, modes, one);
      assert clocks[0] in clocks;
      SettledStays(fingerprint, st, content, modes, one, clocks[0]);
      RerunsAreStable(fingerprint, first, content, modes, clocks[0], clocks[1..]);
    }
  }

  // --- Dry runs and sidecars ----------------------------------------------------------------

  /** A dry run of any saves leaves every file, the baseline and the log as they were. */
  ghost function DrySaves(fingerprint: string -> Fingerprint, st: State, saves: seq<Event>): State
    requires forall e | e in saves :: e.Save? && e.control.dryrun
    decreases |saves|
  {
    if saves == [] then NextRun(st, true)
    else
      var e := saves[0];
      DrySaves(fingerprint, Saved(fingerprint, true, st, e.content, e.modes, e.control), saves[1..])
  }

  lemma {:induction false} DryRunChangesNothing(fingerprint: string -> Fingerprint, st: State, saves: seq<Event>)
    requires forall e | e in saves :: e.Save? && e.control.dryrun
    ensures DrySaves(fingerprint, st, saves) == st.(entry := None, failures := [])
    decreases |saves|
  {
    if saves != [] {
      hide FateOf, Protected, Remember;
      var e := saves[0];
      DryRunChangesNothing(fingerprint, Saved(fingerprint, true, st, e.content, e.modes, e.control), saves[1..]);
    }
  }

  /** Nothing a save replaces is lost under preserve: the old bytes are in the sidecar,
      or the file still holds them. A protected file is never touched. */
  lemma PreserveLosesNothing(fingerprint: string -> Fingerprint, tracked: bool, st: State, content: string,
                             modes: Modes, control: Control)
    requires st.file.Some?
    ensures var after := Saved(fingerprint, tracked, st, content, modes, control);
            && (modes.preserve ==> after.file == st.file || after.oldFile == st.file)
            && (Protected(st.file.value) ==> after.file == st.file && after.oldFile == st.oldFile)
  {
    hide MergeFate, DiffOf, Remember, SpecFor, Protected;
  }
}
