/** What a save leaves behind, mode by mode, told from the outside: the file, its
    sidecars, its baseline, its history and the failures listed. */
module SaveLaws {
  import opened Options
  import opened Text
  import opened Markers
  import opened Diff3
  import opened ThreeWay
  import opened DiffView
  import opened FileHandler
  import opened Recognition

  // --- The two ways a save can end -----------------------------------------------------

  /** The generate is in the file: the baseline moves on to it and, under merge, so does
      the history. Nothing is listed as failed. */
  ghost predicate TookIt(fingerprint: string -> Fingerprint, tracked: bool, st: State, after: State, content: string,
                         modes: Modes, control: Control)
  {
    && after.baseline == (if tracked && Recording(control) then Some(content) else st.baseline)
    && after.entry == Some(if modes.merge then Remember(st.prior, fingerprint(content)) else [])
    && after.failures == st.failures
  }

  /** The file was left as it was: neither baseline nor history move. */
  ghost predicate LeftIt(st: State, after: State, modes: Modes) {
    && after.file == st.file
    && after.baseline == st.baseline
    && after.entry == Some(if modes.merge then st.prior else [])
  }

  predicate Recording(control: Control) {
    control.duplicate && !control.dryrun
  }

  /** The file once text is written to it. */
  function Written(st: State, text: string, control: Control): Option<string> {
    if control.dryrun then st.file else Some(text)
  }

  /** A file that an existing-file mode decides over. */
  predicate Open(st: State, content: string) {
    st.file.Some? && st.file.value != content && !Protected(st.file.value)
  }

  // --- Files no mode decides over -----------------------------------------------------------

  /** A file is protected exactly when the marker occurs in it, anywhere. */
  lemma ProtectedAnywhere(text: string)
    ensures Protected(text) <==> exists a, b :: text == a + "JOSTRACA_PROTECT" + b
  {
    hide OccursAt;
    if Protected(text) {
      var i :| 0 <= i <= |text| && OccursAt(text, PROTECT_MARKER, i);
      MarkerSplits(text, PROTECT_MARKER, i);
    }
    if a, b :| text == a + "JOSTRACA_PROTECT" + b {
      ContainsAt(a, PROTECT_MARKER, b);
    }
  }

  lemma MarkerSplits(text: string, mark: string, i: nat)
    requires i <= |text| && OccursAt(text, mark, i)
    ensures exists a, b :: text == a + mark + b
  {
    assert text == text[..i] + mark + text[i + |mark|..];
  }

  /** A file that is not there is written under every mode, with no sidecar. */
  lemma AbsentIsWritten(fingerprint: string -> Fingerprint, tracked: bool, st: State, content: string, modes: Modes, control: Control)
    requires st.file == None
    ensures var after := Saved(fingerprint, tracked, st, content, modes, control);
            && after.file == Written(st, content, control)
            && after.oldFile == st.oldFile && after.newFile == st.newFile
            && TookIt(fingerprint, tracked, st, after, content, modes, control)
  {
    hide Remember;
  }

  /** A file that already holds the generate is left alone under every mode, protected or
      not, and counts as landed. */
  lemma EqualIsLanded(fingerprint: string -> Fingerprint, tracked: bool, st: State, content: string, modes: Modes, control: Control)
    requires st.file == Some(content)
    ensures var after := Saved(fingerprint, tracked, st, content, modes, control);
            && after.file == st.file
            && after.oldFile == st.oldFile && after.newFile == st.newFile
            && TookIt(fingerprint, tracked, st, after, content, modes, control)
  {
    hide Remember, Protected;
  }

  /** A protected file is left alone under every mode; the new generate may be offered
      beside it, whatever write says. */
  lemma ProtectedIsLeft(fingerprint: string -> Fingerprint, tracked: bool, st: State, content: string, modes: Modes, control: Control)
    requires st.file.Some? && st.file.value != content && Protected(st.file.value)
    ensures var after := Saved(fingerprint, tracked, st, content, modes, control);
            && LeftIt(st, after, modes) && after.failures == st.failures
            && after.oldFile == st.oldFile
            && after.newFile == if modes.present && !control.dryrun then Some(content) else st.newFile
  {
    hide Remember, Protected;
  }

  /** Any other file that differs is kept beside the new one exactly under preserve, and
      the generate is offered beside it exactly under present without write, whatever
      becomes of the file itself. */
  lemma SidecarsOfOpen(fingerprint: string -> Fingerprint, tracked: bool, st: State, content: string, modes: Modes, control: Control)
    requires Open(st, content) && !control.dryrun
    ensures var after := Saved(fingerprint, tracked, st, content, modes, control);
            && after.oldFile == (if modes.preserve then st.file else st.oldFile)
            && after.newFile == if modes.present && !modes.write then Some(content) else st.newFile
  {
    hide Remember, Protected, FateOf;
  }

  // --- No diff, no merge ------------------------------------------------------------------------

  /** Without diff and merge, the generate replaces the file exactly when write is on. */
  lemma WriteDecides(fingerprint: string -> Fingerprint, tracked: bool, st: State, content: string, modes: Modes, control: Control)
    requires Open(st, content) && !modes.diff && !modes.merge
    ensures var after := Saved(fingerprint, tracked, st, content, modes, control);
            && (!control.dryrun ==> (after.file == Some(content) <==> modes.write))
            && (modes.write ==> after.file == Written(st, content, control)
                                && TookIt(fingerprint, tracked, st, after, content, modes, control))
            && (!modes.write ==> LeftIt(st, after, modes) && after.failures == st.failures)
  {
    hide Remember, Protected;
  }

  // --- Diff --------------------------------------------------------------------------------------------

  /** Under diff, merge or not, write or not, the file becomes the annotated view of its
      own text and the generate. */
  lemma DiffWritesView(fingerprint: string -> Fingerprint, tracked: bool, st: State, content: string, modes: Modes, control: Control)
    requires Open(st, content) && modes.diff
    ensures var after := Saved(fingerprint, tracked, st, content, modes, control);
            && after.file == Written(st, DiffOf(content, st.file.value, SpecFor(control, "diff")).content, control)
            && TookIt(fingerprint, tracked, st, after, content, modes, control)
  {
    hide Remember, Protected, DiffOf;
  }

  /** So neither text is lost: each can be read back out of the file, up to one final
      newline, and the file is recognised as unresolved. */
  lemma DiffLosesNothing(fingerprint: string -> Fingerprint, tracked: bool, st: State, content: string, modes: Modes, control: Control)
    requires Open(st, content) && modes.diff && !control.dryrun
    requires NEWLINE !in control.whenStamp && NEWLINE !in control.lastStamp
    requires NoMarks(LinesOf(content)) && NoMarks(LinesOf(st.file.value))
    ensures var after := Saved(fingerprint, tracked, st, content, modes, control);
            && after.file.Some?
            && SameUpToFinalNewline(ReadSide(after.file.value, Existing), st.file.value)
            && SameUpToFinalNewline(ReadSide(after.file.value, Generated), content)
            && HasConflicts(after.file.value, DiffLabels("", ""))
  {
    DiffWritesView(fingerprint, tracked, st, content, modes, control);
    var spec := SpecFor(control, "diff");
    StampsHaveNoNewline(spec);
    hide Saved, NoMarks, LinesOf, ReadSide, HasConflicts, Protected, DiffOf, SameUpToFinalNewline;
    DiffIsReadable(content, st.file.value, spec, Existing);
    DiffIsReadable(content, st.file.value, spec, Generated);
    ChangedViewIsRecognised(content, st.file.value, spec);
  }

  lemma StampsHaveNoNewline(spec: DiffSpec)
    requires NEWLINE !in spec.whenStamp && NEWLINE !in spec.lastStamp && NEWLINE !in spec.kind
    ensures NEWLINE !in spec.whenStamp + spec.lastStamp + spec.kind
  {
  }

  /** A run's default labels: its own clock for the generate, the last run's for the
      file, each with the kind of the operation. */
  lemma LabelsOfRun(control: Control, kind: string)
    requires kind != ""
    ensures LabelsOf(SpecFor(control, kind), kind)
         == DiffLabels("GENERATED: " + control.whenStamp + "/" + kind, "EXISTING: " + control.lastStamp + "/" + kind)
    ensures ExplicitLabels(SpecFor(control, kind)) == DiffLabels("", "")
  {
    assert LABEL_GENERATED + ": " == "GENERATED: " && LABEL_EXISTING + ": " == "EXISTING: ";
  }

  // --- Merge ---------------------------------------------------------------------------------------------

  /** What a save under merge finds to merge against. */
  function Against(st: State, control: Control): Option<string> {
    if control.duplicate then st.baseline else None
  }

  /** The file is, byte for byte, a remembered generate, and not the baseline. */
  predicate PutBack(fingerprint: string -> Fingerprint, st: State, control: Control)
    requires st.file.Some?
  {
    Against(st, control) != st.file && fingerprint(st.file.value) in st.prior
  }

  /** A remembered generate that was put back is replaced. */
  lemma PutBackIsReplaced(fingerprint: string -> Fingerprint, tracked: bool, st: State, content: string, modes: Modes, control: Control)
    requires Open(st, content) && modes.merge && !modes.diff && PutBack(fingerprint, st, control)
    ensures var after := Saved(fingerprint, tracked, st, content, modes, control);
            && after.file == Written(st, content, control)
            && TookIt(fingerprint, tracked, st, after, content, modes, control)
  {
    hide Remember, Protected, MergeOf;
  }

  /** Otherwise, with nothing to merge against, conflictFail leaves the file and lists it;
      without it the generate replaces the file exactly when write is on. */
  lemma NothingToMerge(fingerprint: string -> Fingerprint, tracked: bool, st: State, content: string, modes: Modes, control: Control)
    requires Open(st, content) && modes.merge && !modes.diff && !PutBack(fingerprint, st, control)
    requires Against(st, control) == None
    ensures var after := Saved(fingerprint, tracked, st, content, modes, control);
            if modes.conflictFail then
              LeftIt(st, after, modes) && after.failures == st.failures + [NoBaseReason]
            else if modes.write then
              after.file == Written(st, content, control) && TookIt(fingerprint, tracked, st, after, content, modes, control)
            else
              LeftIt(st, after, modes) && after.failures == st.failures
  {
    hide Remember, Protected, MergeOf;
  }

  /** Otherwise the merge decides, whatever write says: unresolved markers leave the file,
      a conflict leaves it under conflictFail only, each then listed for its reason; and
      all else writes the merged text. */
  lemma MergeDecides(fingerprint: string -> Fingerprint, tracked: bool, st: State, content: string, modes: Modes, control: Control)
    requires Open(st, content) && modes.merge && !modes.diff && !PutBack(fingerprint, st, control)
    requires Against(st, control).Some?
    ensures var after := Saved(fingerprint, tracked, st, content, modes, control);
            var r := MergeOf(content, Against(st, control).value, st.file.value, SpecFor(control, "merge"));
            if r.outcome == Unresolved then
              && LeftIt(st, after, modes)
              && after.failures == st.failures + if modes.conflictFail then [UnresolvedReason] else []
            else if r.conflict && modes.conflictFail then
              LeftIt(st, after, modes) && after.failures == st.failures + [ConflictReason]
            else
              after.file == Written(st, r.content, control) && TookIt(fingerprint, tracked, st, after, content, modes, control)
  {
    hide Remember, Protected, MergeOf;
  }

  /** How a merge can come out: the file is still the baseline, holds unresolved markers,
      or is merged piece by piece. */
  lemma MergeOutcomes(content: string, base: string, existing: string, control: Control)
    requires existing != content
    ensures var spec := SpecFor(control, "merge");
            var r := MergeOf(content, base, existing, spec);
            && (existing == base ==> r == MergeResult(content, false, Clean))
            && (r.outcome == Unresolved <==> existing != base && HasConflicts(existing, DiffLabels("", "")))
            && (r.outcome == Unresolved ==> r.content == existing)
            && (existing != base && r.outcome != Unresolved ==>
                  && r.content == LoopContent(content, base, existing, LabelsOf(spec, "merge"))
                  && (r.conflict <==> AnyConflict(PiecesOf(content, base, existing))))
  {
    hide HasConflicts, Render, AllPieces, LabelsOf;
  }

  /** Whichever marker the user left in a file, the next merge leaves the file to them. */
  lemma HalfResolvedIsLeft(fingerprint: string -> Fingerprint, tracked: bool, st: State, content: string, modes: Modes,
                           control: Control, before: string, front: string, name: string, after: string, written: Control)
    requires Open(st, content) && modes.merge && !modes.diff && !PutBack(fingerprint, st, control)
    requires Against(st, control).Some? && Against(st, control) != st.file
    requires before == "" || EndsWithNewline(before)
    requires front == "<<<<<<< " || front == ">>>>>>> "
    requires var labels := LabelsOf(SpecFor(written, "merge"), "merge"); name == labels.existing || name == labels.generated
    requires st.file.value == before + (front + name + "\n") + after
    ensures LeftIt(st, Saved(fingerprint, tracked, st, content, modes, control), modes)
  {
    MergeDecides(fingerprint, tracked, st, content, modes, control);
    MergeOutcomes(content, Against(st, control).value, st.file.value, control);
    hide Saved, MergeOf, HasConflicts, LabelsOf, Protected, LeftIt;
    AnyMarkIsRecognised(before, front, name, after, SpecFor(written, "merge"), "merge");
  }

  // --- Between runs ------------------------------------------------------------------------------------

  /** A dry run touches neither the file, nor its sidecars, nor its baseline. */
  lemma DrySaveTouchesNothing(fingerprint: string -> Fingerprint, tracked: bool, st: State, content: string, modes: Modes, control: Control)
    requires control.dryrun
    ensures var after := Saved(fingerprint, tracked, st, content, modes, control);
            && after.file == st.file && after.oldFile == st.oldFile && after.newFile == st.newFile
            && after.baseline == st.baseline && after.prior == st.prior
  {
    hide Remember, Protected, FateOf, Landed;
  }

  /** A run is read back by the next one: what its last save recorded, or nothing when it
      saved nothing; after a dry run, what was there before. */
  lemma NextRunReads(st: State)
    ensures var next := NextRun(st, false);
            && (st.entry == None ==> next.prior == [])
            && (forall fps :: st.entry == Some(fps) ==> next.prior == fps)
            && next.file == st.file && next.oldFile == st.oldFile && next.newFile == st.newFile && next.baseline == st.baseline
            && next.entry == None && next.failures == []
    ensures NextRun(st, true) == st.(entry := None, failures := [])
  {
  }
}
