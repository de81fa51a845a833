/** What one save does to an output file that may already exist, and the state that is
    carried from run to run: the merge baseline and the remembered fingerprints. */
module FileHandler {
  import opened Options
  import opened Text
  import opened Markers
  import opened ThreeWay
  import opened DiffView

  const PROTECT_MARKER := "JOSTRACA_PROTECT"
  const FINGERPRINT_HISTORY := 8

  type Fingerprint = string

  /** The existing-file modes of one save. */
  datatype Modes = Modes(write: bool, preserve: bool, present: bool, diff: bool, merge: bool, conflictFail: bool)

  /** The run's control flags, and the formatted clocks its labels carry. */
  datatype Control = Control(duplicate: bool, dryrun: bool, whenStamp: string, lastStamp: string)

  /** Why a file under conflictFail was left as it was. */
  datatype Reason = ConflictReason | UnresolvedReason | NoBaseReason

  /** One output path: the file, its two sidecars, its merge baseline, the fingerprints
      the previous run recorded, the entry this run has recorded so far, and the
      failures this run lists. */
  datatype State = State(
    file: Option<string>,
    oldFile: Option<string>,
    newFile: Option<string>,
    baseline: Option<string>,
    prior: seq<Fingerprint>,
    entry: Option<seq<Fingerprint>>,
    failures: seq<Reason>)

  predicate Protected(content: string) {
    Contains(content, PROTECT_MARKER)
  }

  function SpecFor(control: Control, kind: string): DiffSpec {
    DiffSpec(control.whenStamp, control.lastStamp, kind, None)
  }

  // --- Fingerprints ---------------------------------------------------------------

  function Without(fps: seq<Fingerprint>, fp: Fingerprint): seq<Fingerprint> {
    if fps == [] then []
    else if fps[|fps| - 1] == fp then Without(fps[..|fps| - 1], fp)
    else Without(fps[..|fps| - 1], fp) + [fps[|fps| - 1]]
  }

  /** The history with fp as its newest entry, cut to the newest few. */
  function Remember(fps: seq<Fingerprint>, fp: Fingerprint): seq<Fingerprint> {
    var all := Without(fps, fp) + [fp];
    if |all| > FINGERPRINT_HISTORY then all[|all| - FINGERPRINT_HISTORY..] else all
  }

  method HasFingerprint(fps: seq<Fingerprint>, fp: Fingerprint) returns (found: bool)
    ensures found == (fp in fps)
  {
    for i := 0 to |fps|
      invariant fp !in fps[..i]
    {
      if fps[i] == fp {
        return true;
      }
    }
    found := false;
  }

  method WithFingerprint(fps: seq<Fingerprint>, fp: Fingerprint) returns (out: seq<Fingerprint>)
    ensures out == Remember(fps, fp)
  {
    out := [];
    for i := 0 to |fps|
      invariant out == Without(fps[..i], fp)
    {
      assert fps[..i + 1][..i] == fps[..i];
      if fps[i] != fp {
        out := out + [fps[i]];
      }
    }
    assert fps[..|fps|] == fps;
    out := out + [fp];
    if |out| > FINGERPRINT_HISTORY {
      out := out[|out| - FINGERPRINT_HISTORY..];
    }
  }

  ghost predicate Distinct(fps: seq<Fingerprint>) {
    forall i, j | 0 <= i < j < |fps| :: fps[i] != fps[j]
  }

  lemma {:induction false} WithoutHolds(fps: seq<Fingerprint>, fp: Fingerprint)
    ensures forall f :: f in Without(fps, fp) <==> f in fps && f != fp
    ensures Distinct(fps) ==> Distinct(Without(fps, fp))
  {
    if fps != [] {
      var init, last := fps[..|fps| - 1], fps[|fps| - 1];
      WithoutHolds(init, fp);
      assert fps == init + [last];
      assert forall f :: f in fps <==> f in init || f == last;
      if Distinct(fps) {
        assert Distinct(init) && last !in init;
      }
    }
  }

  /** The history never repeats a fingerprint, never outgrows its bound, ends with the
      newest and invents none; while it is short it forgets none either. */
  lemma RememberHolds(fps: seq<Fingerprint>, fp: Fingerprint)
    requires Distinct(fps)
    ensures Distinct(Remember(fps, fp)) && Remember(fps, fp)[|Remember(fps, fp)| - 1] == fp
    ensures 0 < |Remember(fps, fp)| <= FINGERPRINT_HISTORY
    ensures forall f :: f in Remember(fps, fp) ==> f in fps || f == fp
    ensures |Without(fps, fp)| < FINGERPRINT_HISTORY ==> forall f :: f in fps ==> f in Remember(fps, fp)
  {
    WithoutHolds(fps, fp);
    hide Without;
    var rest := Without(fps, fp);
    var all := rest + [fp];
    assert forall f :: f in all <==> f in rest || f == fp;
    assert fp !in rest;
    assert Distinct(all);
  }

  // --- The decision table ------------------------------------------------------------

  /** What becomes of the file: rewritten, kept, or refused and reported. */
  datatype Fate = Put(content: string) | Keep(landed: bool) | Refuse(reason: Reason)

  /** The file is byte for byte one of its own earlier generates, and not the one the
      baseline holds. */
  ghost predicate IsEarlier(fingerprint: string -> Fingerprint, existing: string, baseline: Option<string>, prior: seq<Fingerprint>) {
    baseline != Some(existing) && fingerprint(existing) in prior
  }

  /** The fate of an unprotected file under merge whose content differs from the new
      generate. */
  ghost function MergeFate(fingerprint: string -> Fingerprint, existing: string, content: string,
                           baseline: Option<string>, prior: seq<Fingerprint>, modes: Modes, control: Control): Fate
  {
    if IsEarlier(fingerprint, existing, baseline, prior) then Put(content)
    else match baseline
      case None =>
        if modes.conflictFail then Refuse(NoBaseReason)
        else if modes.write then Put(content)
        else Keep(false)
      case Some(base) =>
        var r := MergeOf(content, base, existing, SpecFor(control, "merge"));
        if r.outcome == Unresolved then (if modes.conflictFail then Refuse(UnresolvedReason) else Keep(false))
        else if r.conflict && modes.conflictFail then Refuse(ConflictReason)
        else Put(r.content)
  }

  ghost function FateOf(fingerprint: string -> Fingerprint, st: State, content: string, modes: Modes, control: Control): Fate {
    match st.file
    case None => Put(content)
    case Some(existing) =>
      if existing == content then Keep(true)
      else if Protected(existing) then Keep(false)
      else if modes.diff then Put(DiffOf(content, existing, SpecFor(control, "diff")).content)
      else if modes.merge then
        MergeFate(fingerprint, existing, content, if control.duplicate then st.baseline else None, st.prior, modes, control)
      else if modes.write then Put(content)
      else Keep(false)
  }

  /** The file holds this generate once the save is done. */
  predicate Landed(fate: Fate) {
    fate.Put? || (fate.Keep? && fate.landed)
  }

  /** The state a fate leads to; tracked says the path has a baseline at all. */
  ghost function After(fingerprint: string -> Fingerprint, tracked: bool, st: State, content: string,
                       modes: Modes, control: Control, fate: Fate): State
  {
    var differs := st.file.Some? && st.file.value != content;
    var protect := st.file.Some? && Protected(st.file.value);
    var live := !control.dryrun;
    State(
      if live && fate.Put? then Some(fate.content) else st.file,
      if live && differs && !protect && modes.preserve then st.file else st.oldFile,
      if live && differs && (protect || !modes.write) && modes.present then Some(content) else st.newFile,
      if live && control.duplicate && tracked && Landed(fate) then Some(content) else st.baseline,
      st.prior,
      Some(if !modes.merge then [] else if Landed(fate) then Remember(st.prior, fingerprint(content)) else st.prior),
      if fate.Refuse? then st.failures + [fate.reason] else st.failures)
  }

  /** A state that has each of its parts where a fate leads is the state it leads to. */
  lemma AfterIs(fingerprint: string -> Fingerprint, tracked: bool, st: State, content: string, modes: Modes,
                control: Control, fate: Fate, end: State)
    requires end.prior == st.prior
    requires end.file == if fate.Put? && !control.dryrun then Some(fate.content) else st.file
    requires end.failures == if fate.Refuse? then st.failures + [fate.reason] else st.failures
    requires if st.file.None? then end.oldFile == st.oldFile && end.newFile == st.newFile
             else
               var differs, protect := st.file.value != content, Protected(st.file.value);
               && end.oldFile == (if !control.dryrun && differs && !protect && modes.preserve then st.file else st.oldFile)
               && end.newFile == (if !control.dryrun && differs && !(modes.write && !protect) && modes.present
                                  then Some(content) else st.newFile)
    requires end.baseline == if control.duplicate && tracked && Landed(fate) && !control.dryrun then Some(content) else st.baseline
    requires end.entry == Some(if !modes.merge then [] else if Landed(fate) then Remember(st.prior, fingerprint(content)) else st.prior)
    ensures end == After(fingerprint, tracked, st, content, modes, control, fate)
  {
    hide Protected, Remember, Landed;
  }

  /** The state after one save. */
  ghost function Saved(fingerprint: string -> Fingerprint, tracked: bool, st: State, content: string,
                       modes: Modes, control: Control): State
  {
    After(fingerprint, tracked, st, content, modes, control, FateOf(fingerprint, st, content, modes, control))
  }

  /** The state the next run starts from. A dry run writes no log. */
  ghost function NextRun(st: State, dryrun: bool): State {
    var kept := if dryrun then st.prior else match st.entry case None => [] case Some(fps) => fps;
    st.(prior := kept, entry := None, failures := [])
  }

  // --- The handler, step by step -----------------------------------------------------------

  class Handler {
    const fingerprint: string -> Fingerprint
    const tracked: bool

    var file: Option<string>
    var oldFile: Option<string>
    var newFile: Option<string>
    var baseline: Option<string>
    var prior: seq<Fingerprint>
    var entry: Option<seq<Fingerprint>>
    var failures: seq<Reason>

    ghost function Current(): State
      reads this
    {
      State(file, oldFile, newFile, baseline, prior, entry, failures)
    }

    constructor (fingerprint: string -> Fingerprint, tracked: bool)
      ensures this.fingerprint == fingerprint && this.tracked == tracked
      ensures Current() == State(None, None, None, None, [], None, [])
    {
      this.fingerprint, this.tracked := fingerprint, tracked;
      file, oldFile, newFile, baseline := None, None, None, None;
      prior, entry, failures := [], None, [];
    }

    method SaveFile(content: string, control: Control)
      modifies this`file
      ensures file == if control.dryrun then old(file) else Some(content)
    {
      if !control.dryrun {
        file := Some(content);
      }
    }

    /** Takes an earlier generate's successor whole, or merges; reports whether the
        generate landed. */
    method SaveMerge(content: string, existing: string, base: string, earlier: bool, modes: Modes, control: Control)
      returns (landed: bool)
      modifies this`file, this`failures
      ensures var r := if earlier then MergeResult(content, false, Clean)
                       else MergeOf(content, base, existing, SpecFor(control, "merge"));
              var conflict := r.conflict || r.outcome == Unresolved;
              && landed == !(conflict && (modes.conflictFail || r.outcome == Unresolved))
              && file == (if landed && !control.dryrun then Some(r.content) else old(file))
              && failures == (if conflict && modes.conflictFail
                              then old(failures) + [if r.outcome == Unresolved then UnresolvedReason else ConflictReason]
                              else old(failures))
    {
      hide MergeOf;
      var r := MergeResult(content, false, Clean);
      if !earlier {
        r := Merge(content, base, existing, SpecFor(control, "merge"));
      }
      var unresolved := r.outcome == Unresolved;
      var conflict := r.conflict || unresolved;
      landed := false;
      if conflict && modes.conflictFail {
        failures := failures + [if unresolved then UnresolvedReason else ConflictReason];
      } else if !unresolved {
        SaveFile(r.content, control);
        landed := true;
      }
    }

    /** The merge of an unprotected file that differs from the new generate, or its
        listing as unmerged when there is nothing to merge against. */
    method MergeExisting(content: string, existing: string, wasWrite: bool, modes: Modes, control: Control)
      returns (write: bool, landed: bool)
      requires file == Some(existing) && existing != content && wasWrite == modes.write
      modifies this`file, this`failures
      ensures var last := if control.duplicate then baseline else None;
              var fate := MergeFate(fingerprint, existing, content, last, prior, modes, control);
              && (write ==> fate == Put(content) && file == old(file) && !landed)
              && (!write && fate.Put? ==> landed && file == if control.dryrun then old(file) else Some(fate.content))
              && (!fate.Put? ==> !write && !landed && file == old(file) && fate != Keep(true))
              && failures == if fate.Refuse? then old(failures) + [fate.reason] else old(failures)
    {
      hide MergeOf, SpecFor;
      write, landed := wasWrite, false;
      var hasBase := control.duplicate && baseline.Some?;
      var base := if hasBase then baseline.value else "";
      var earlier := !hasBase || base != existing;
      if earlier {
        earlier := HasFingerprint(prior, fingerprint(existing));
      }
      if hasBase || earlier {
        write := false;
        landed := SaveMerge(content, existing, base, earlier, modes, control);
      } else if modes.conflictFail {
        write := false;
        failures := failures + [NoBaseReason];
      }
    }

    /** Diff or merge of an unprotected file. */
    method Reconcile(content: string, existing: string, wasWrite: bool, modes: Modes, control: Control)
      returns (write: bool, landed: bool)
      requires file == Some(existing) && !Protected(existing) && wasWrite == modes.write
      modifies this`file, this`failures
      ensures var fate := FateOf(fingerprint, old(Current()), content, modes, control);
              && (write ==> fate == (if existing == content then Keep(true) else Put(content)) && file == old(file))
              && (!write ==> landed == Landed(fate))
              && (!write ==> file == if fate.Put? && !control.dryrun then Some(fate.content) else old(file))
              && failures == if fate.Refuse? then old(failures) + [fate.reason] else old(failures)
    {
      hide MergeOf, DiffOf, SpecFor, Protected, MergeFate;
      var same := existing == content;
      write, landed := wasWrite, same;
      if modes.diff {
        write := false;
        if !same {
          var rendered := Diff(content, existing, SpecFor(control, "diff"));
          SaveFile(rendered.content, control);
        }
        landed := true;
      } else if modes.merge {
        if !same {
          write, landed := MergeExisting(content, existing, wasWrite, modes, control);
        } else {
          write := false;
          landed := true;
        }
      }
    }

    /** Moves the baseline on to a generate that landed, and records the entry. */
    method Record(content: string, landed: bool, modes: Modes, control: Control)
      modifies this`baseline, this`entry
      ensures baseline == if control.duplicate && tracked && landed && !control.dryrun then Some(content) else old(baseline)
      ensures entry == Some(if !modes.merge then [] else if landed then Remember(prior, fingerprint(content)) else prior)
    {
      if control.duplicate && tracked && landed && !control.dryrun {
        baseline := Some(content);
      }
      var fps := [];
      if modes.merge {
        fps := prior;
        if landed {
          fps := WithFingerprint(fps, fingerprint(content));
        }
      }
      entry := Some(fps);
    }

    /** The preserve and present modes, which keep the old bytes or offer the new ones
        beside the file, and whether the file itself is to be written. */
    method WriteSidecars(content: string, existing: string, protect: bool, modes: Modes, control: Control)
      returns (write: bool)
      requires file == Some(existing)
      modifies this`oldFile, this`newFile
      ensures write == (modes.write && !protect)
      ensures oldFile == if !control.dryrun && existing != content && !protect && modes.preserve then file else old(oldFile)
      ensures newFile == if !control.dryrun && existing != content && !write && modes.present then Some(content) else old(newFile)
    {
      var same := existing == content;
      write := false;
      if modes.preserve {
        if protect {
          write := false;
        } else if !same {
          if !control.dryrun {
            oldFile := file;
          }
        }
      }
      if modes.write && !protect {
        write := true;
      } else if modes.present {
        if !same {
          if !control.dryrun {
            newFile := Some(content);
          }
        }
      }
    }

    /** Everything a save does because a file is there already. What is left to do is to
        write the generate over it, if it is to be written. */
    method SaveExisting(content: string, modes: Modes, control: Control) returns (write: bool, landed: bool)
      requires file.Some?
      modifies this`file, this`oldFile, this`newFile, this`failures
      ensures var fate := FateOf(fingerprint, old(Current()), content, modes, control);
              var same := old(file).value == content;
              && (write ==> fate == if same then Keep(true) else Put(content))
              && (!write ==> landed == Landed(fate))
              && file == (if !write && fate.Put? && !control.dryrun then Some(fate.content) else old(file))
              && failures == if fate.Refuse? then old(failures) + [fate.reason] else old(failures)
      ensures var existing := old(file).value;
              var protect := Protected(existing);
              && oldFile == (if !control.dryrun && existing != content && !protect && modes.preserve then old(file) else old(oldFile))
              && newFile == (if !control.dryrun && existing != content && !(modes.write && !protect) && modes.present
                             then Some(content) else old(newFile))
    {
      hide MergeFate, DiffOf, Protected, SpecFor;
      var existing := file.value;
      var protect := Protected(existing);
      write := WriteSidecars(content, existing, protect, modes, control);
      landed := existing == content;
      if !protect {
        write, landed := Reconcile(content, existing, write, modes, control);
      }
    }

    method Save(content: string, modes: Modes, control: Control)
      modifies this
      ensures Current() == Saved(fingerprint, tracked, old(Current()), content, modes, control)
    {
      hide MergeFate, DiffOf, Protected, Remember, SpecFor, After;
      ghost var start, fate := Current(), FateOf(fingerprint, Current(), content, modes, control);
      var write, same, landed := file.None?, file == Some(content), false;
      if file.Some? {
        write, landed := SaveExisting(content, modes, control);
      }
      assert write ==> fate == if same then Keep(true) else Put(content);
      hide FateOf;
      if write {
        if !same {
          SaveFile(content, control);
        }
        landed := true;
      }
      assert landed == Landed(fate);
      hide Landed;
      Record(content, landed, modes, control);
      AfterIs(fingerprint, tracked, start, content, modes, control, fate, Current());
    }

    /** The log is written and the next run reads it back. */
    method EndRun(dryrun: bool)
      modifies this
      ensures Current() == NextRun(old(Current()), dryrun)
    {
      if !dryrun {
        prior := match entry case None => [] case Some(fps) => fps;
      }
      entry := None;
      failures := [];
    }
  }
}
