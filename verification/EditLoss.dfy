/** A history in which an edit is lost: a clean merge that keeps it happens to be byte for
    byte an older generate, and the next run takes it for that generate put back. */
module EditLoss {
  import opened Options
  import opened Text
  import LcsSpec
  import opened LcsEngine
  import opened Diff3
  import opened Markers
  import opened ThreeWay
  import opened FileHandler
  import opened Protocol

  const P := "p\n"
  const S := "s\n"
  const Q := "q\n"

  // --- A merge of three lines against two and two -------------------------------------

  lemma ThreeAnchors(m: seq<int>)
    requires |m| == 3
    ensures AnchorCount(m) == (if m[0] >= 0 then 1 else 0) + (if m[1] >= 0 then 1 else 0) + (if m[2] >= 0 then 1 else 0)
  {
    assert m[..2][..1] == m[..1] && m[..1][..0] == [];
    assert AnchorCount(m[..1]) == if m[0] >= 0 then 1 else 0;
    assert AnchorCount(m[..2]) == AnchorCount(m[..1]) + if m[1] >= 0 then 1 else 0;
  }

  lemma Forced<T>(x: T, y: T, z: T, m: seq<int>)
    requires x != y && y != z && x != z && |m| == 3 && AnchorCount(m) >= 2
    ensures IsAlignment([x, y, z], [x, y], m) ==> m == [0, 1, -1]
    ensures IsAlignment([x, y, z], [y, z], m) ==> m == [-1, 0, 1]
  {
    ThreeAnchors(m);
    hide AnchorCount;
    var base := [x, y, z];
    assert base[0] == x && base[1] == y && base[2] == z;
  }

  lemma TwoInCommon<T>(base: seq<T>, target: seq<T>, i: nat)
    requires |target| == 2 && i + 2 <= |base| && base[i] == target[0] && base[i + 1] == target[1]
    ensures LcsSpec.Len(base, target) >= 2
  {
    hide LcsSpec.Len;
    assert LcsSpec.Embeds(target, base, [i, i + 1]) && LcsSpec.Embeds(target, target, [0, 1]);
    LcsSpec.LenIsUpperBound(target, base, [i, i + 1], target, [0, 1]);
  }

  /** Three different lines against the first two and the last two of them. */
  lemma AlignThree<T>(x: T, y: T, z: T)
    requires x != y && y != z && x != z
    ensures Align([x, y, z], [x, y]) == [0, 1, -1]
    ensures Align([x, y, z], [y, z]) == [-1, 0, 1]
  {
    hide Align, LcsSpec.Len, AnchorCount, IsAlignment;
    var base, front, back := [x, y, z], [x, y], [y, z];
    TwoInCommon(base, front, 0);
    TwoInCommon(base, back, 1);
    AlignIsAlignment(base, front);
    AlignIsAlignment(base, back);
    Forced(x, y, z, Align(base, front));
    Forced(x, y, z, Align(base, back));
  }

  lemma MergedPieces<T>(x: T, y: T, z: T)
    requires x != y && y != z && x != z
    ensures AllPieces(Sides<T>.Of([x, y, z], [x, y], [y, z])) == [Region([x], [x], []), Anchor(y), Region([z], [], [z])]
  {
    var s := Sides<T>.Of([x, y, z], [x, y], [y, z]);
    AlignThree(x, y, z);
    assert Ready(s, 0, 0, 0);
    hide Align, Pieces, IsAlignment;
    NextAnchorIs(s.gMap, s.eMap, 0, 1);
    PiecesStep(s, 0, 0, 0);
    NextAnchorIs(s.gMap, s.eMap, 2, 3);
    PiecesStep(s, 2, 2, 1);
    assert FirstRegion(s, 0, 0, 0) == Region([x], [x], []);
    assert FirstRegion(s, 2, 2, 1) == Region([z], [], [z]);
  }

  lemma TextLines()
    ensures LinesOf(P + S + Q) == [P, S, Q] && LinesOf(P + S) == [P, S] && LinesOf(S + Q) == [S, Q]
  {
    hide LinesOf;
    LinesOfJoin([P, S, Q]);
    LinesOfJoin([P, S]);
    LinesOfJoin([S, Q]);
    hide Join;
    JoinNone();
    JoinCons(Q, []);
    JoinCons(S, [Q]);
    JoinCons(P, [S, Q]);
    JoinCons(S, []);
    JoinCons(P, [S]);
    assert [P] + [S, Q] == [P, S, Q] && [S] + [Q] == [S, Q] && [P] + [S] == [P, S] && [Q] + [] == [Q] && [S] + [] == [S];
    assert P + (S + Q) == P + S + Q && Q + "" == Q && S + "" == S;
  }

  /** The first line is gone from one side, the last from the other: both are gone. */
  lemma RenderThree(x: string, y: string, z: string, labels: DiffLabels)
    ensures var ps := [Region([x], [x], []), Anchor(y), Region([z], [], [z])];
            Render(ps, labels) == [y] && !AnyConflict(ps)
  {
    var first, anchor, last := Region([x], [x], []), Anchor(y), Region([z], [], [z]);
    RenderStep(first, anchor, [last], labels);
    RenderStep(last, last, [], labels);
    assert [first, anchor] + [last] == [first, anchor, last];
    hide Render, AnyConflict;
    assert [] + ([y] + []) == [y];
  }

  /** The generate drops the last line, the user dropped the first: both are gone. */
  lemma MergeDropsBoth(labels: DiffLabels)
    ensures LoopContent(P + S, P + S + Q, S + Q, labels) == S && !LoopConflict(P + S, P + S + Q, S + Q)
  {
    TextLines();
    MergedPieces(P, S, Q);
    RenderThree(P, S, Q, labels);
    hide LinesOf, AllPieces, Render, AnyConflict, Join;
    JoinOne(S);
  }

  // --- The history ---------------------------------------------------------------------

  lemma ShortText(text: string)
    requires |text| < 7
    ensures !HasConflicts(text, DiffLabels("", "")) && !Protected(text)
  {
  }

  lemma {:induction false} WithoutIsShorter(fps: seq<Fingerprint>, fp: Fingerprint)
    ensures |Without(fps, fp)| <= |fps|
  {
    if fps != [] {
      WithoutIsShorter(fps[..|fps| - 1], fp);
    }
  }

  /** A short history forgets nothing and adds one fingerprint. */
  lemma RememberKeeps(fps: seq<Fingerprint>, fp: Fingerprint)
    requires |fps| < FINGERPRINT_HISTORY
    ensures forall f :: f in Remember(fps, fp) <==> f in fps || f == fp
    ensures |Remember(fps, fp)| <= |fps| + 1
  {
    WithoutHolds(fps, fp);
    WithoutIsShorter(fps, fp);
    hide Without;
    assert forall f :: f in Without(fps, fp) + [fp] <==> f in Without(fps, fp) || f == fp;
  }

  /** Merging over histories with the default labels: no diff, baselines kept. */
  predicate Merging(modes: Modes, control: Control) {
    modes.merge && !modes.diff && Recorded(control)
  }

  /** A run that lands a generate leaves this. */
  ghost predicate LeftBy(fingerprint: string -> Fingerprint, st: State, end: State, content: string, file: string) {
    && end.file == Some(file) && end.baseline == Some(content)
    && end.prior == Remember(st.prior, fingerprint(content)) && end.entry == None
  }

  lemma FirstRunLands(fingerprint: string -> Fingerprint, st: State, content: string, modes: Modes, control: Control)
    requires Merging(modes, control) && st.file.None?
    ensures LeftBy(fingerprint, st, FirstRun(fingerprint, st, content, modes, control), content, content)
  {
    hide Remember, MergeFate;
  }

  /** A run whose merge is clean leaves the merged file. */
  lemma MergeRunLands(fingerprint: string -> Fingerprint, st: State, content: string, modes: Modes, control: Control)
    requires Merging(modes, control) && NeedsMerge(fingerprint, st, content) && st.baseline.Some?
    requires var r := MergeOf(content, st.baseline.value, st.file.value, SpecFor(control, "merge"));
             r.outcome != Unresolved && !r.conflict
    ensures var r := MergeOf(content, st.baseline.value, st.file.value, SpecFor(control, "merge"));
            LeftBy(fingerprint, st, FirstRun(fingerprint, st, content, modes, control), content, r.content)
  {
    hide Remember, MergeOf, Protected, IsEarlier;
  }

  function Generate(content: string, modes: Modes, control: Control): Event {
    Event.Save(content, modes, control)
  }

  /** Two generates, and an edit that drops a line the second one added. */
  function Edited(modes: Modes, control: Control): seq<Event> {
    [Generate(S, modes, control), EndRun, Generate(P + S + Q, modes, control), EndRun, Edit(Some(S + Q))]
  }

  /** The same, and a third generate. */
  function Merged(modes: Modes, control: Control): seq<Event> {
    Edited(modes, control) + [Generate(P + S, modes, control), EndRun]
  }

  lemma HistorySnoc(fingerprint: string -> Fingerprint, events: seq<Event>, e: Event)
    ensures History(fingerprint, events + [e]) == Step(fingerprint, History(fingerprint, events), e)
  {
    hide Step;
    assert (events + [e])[..|events|] == events;
  }

  /** A save and the end of its run, added to a history. */
  lemma HistoryRun(fingerprint: string -> Fingerprint, events: seq<Event>, content: string, modes: Modes, control: Control)
    ensures History(fingerprint, events + [Generate(content, modes, control), EndRun])
         == FirstRun(fingerprint, History(fingerprint, events), content, modes, control)
  {
    hide History, Saved, NextRun;
    var save := Generate(content, modes, control);
    HistorySnoc(fingerprint, events, save);
    HistorySnoc(fingerprint, events + [save], EndRun);
    assert events + [save] + [EndRun] == events + [save, EndRun];
  }

  /** The state before the edit's fate is decided. */
  lemma AfterEdit(fingerprint: string -> Fingerprint, modes: Modes, control: Control)
    requires Merging(modes, control)
    ensures var st := History(fingerprint, Edited(modes, control));
            && st.file == Some(S + Q) && st.baseline == Some(P + S + Q) && |st.prior| <= 2
            && forall f :: f in st.prior <==> f == fingerprint(S) || f == fingerprint(P + S + Q)
  {
    hide History, FirstRun, Remember, MergeOf, Protected, IsEarlier, HasConflicts;
    var one := [Generate(S, modes, control), EndRun];
    var two := one + [Generate(P + S + Q, modes, control), EndRun];
    assert History(fingerprint, []) == START by { NoEvents(fingerprint); }
    HistoryRun(fingerprint, [], S, modes, control);
    assert [] + one == one;
    FirstRunLands(fingerprint, START, S, modes, control);
    RememberKeeps([], fingerprint(S));
    var first := History(fingerprint, one);
    HistoryRun(fingerprint, one, P + S + Q, modes, control);
    ShortText(S);
    assert NeedsMerge(fingerprint, first, P + S + Q) by { BaselineIsNotEarlier(fingerprint, first, S); }
    assert MergeOf(P + S + Q, S, S, SpecFor(control, "merge")) == MergeResult(P + S + Q, false, Clean) by { UntouchedMerge(control); }
    MergeRunLands(fingerprint, first, P + S + Q, modes, control);
    RememberKeeps(first.prior, fingerprint(P + S + Q));
    HistorySnoc(fingerprint, two, Edit(Some(S + Q)));
    assert two + [Edit(Some(S + Q))] == Edited(modes, control);
  }

  lemma NoEvents(fingerprint: string -> Fingerprint)
    ensures History(fingerprint, []) == START
  {
  }

  lemma BaselineIsNotEarlier(fingerprint: string -> Fingerprint, st: State, content: string)
    requires st.baseline == Some(content)
    ensures !IsEarlier(fingerprint, content, st.baseline, st.prior)
  {
  }

  lemma UntouchedMerge(control: Control)
    ensures MergeOf(P + S + Q, S, S, SpecFor(control, "merge")) == MergeResult(P + S + Q, false, Clean)
  {
    hide HasConflicts, LoopContent, LoopConflict;
  }

  lemma EditedMerge(control: Control)
    ensures MergeOf(P + S, P + S + Q, S + Q, SpecFor(control, "merge")) == MergeResult(S, false, MergeOutcome.Merged)
  {
    ShortText(S + Q);
    MergeDropsBoth(LabelsOf(SpecFor(control, "merge"), "merge"));
    hide HasConflicts, LoopContent, LoopConflict, LabelsOf;
  }

  lemma AfterMerge(fingerprint: string -> Fingerprint, modes: Modes, control: Control)
    requires Merging(modes, control) && Injective(fingerprint)
    ensures var st := History(fingerprint, Merged(modes, control));
            st.file == Some(S) && st.baseline == Some(P + S) && fingerprint(S) in st.prior
  {
    hide History, FirstRun, Remember, MergeOf, Protected, HasConflicts;
    var st := History(fingerprint, Edited(modes, control));
    AfterEdit(fingerprint, modes, control);
    assert fingerprint(S + Q) != fingerprint(S) && fingerprint(S + Q) != fingerprint(P + S + Q);
    ShortText(S + Q);
    assert fingerprint(S + Q) !in st.prior && (S + Q)[0] != (P + S)[0];
    assert NeedsMerge(fingerprint, st, P + S);
    EditedMerge(control);
    MergeRunLands(fingerprint, st, P + S, modes, control);
    HistoryRun(fingerprint, Edited(modes, control), P + S, modes, control);
    RememberKeeps(st.prior, fingerprint(P + S));
  }

  /** The user deletes the first line; the next generate merges cleanly and the deletion
      stands; the same generate again takes the file for the first of all generates and
      brings the line back. */
  lemma EditIsLost(fingerprint: string -> Fingerprint, modes: Modes, control: Control)
    requires Merging(modes, control) && Injective(fingerprint)
    ensures AllRecorded(Merged(modes, control))
    ensures History(fingerprint, Edited(modes, control)).file == Some(S + Q)
    ensures var st := History(fingerprint, Merged(modes, control));
            && st == FirstRun(fingerprint, History(fingerprint, Edited(modes, control)), P + S, modes, control)
            && st.file == Some(S) && TakenForEarlier(fingerprint, st, P + S)
            && Saved(fingerprint, true, st, P + S, modes, control).file == Some(P + S)
  {
    hide History, FirstRun, Saved, Protected;
    AfterEdit(fingerprint, modes, control);
    AfterMerge(fingerprint, modes, control);
    HistoryRun(fingerprint, Edited(modes, control), P + S, modes, control);
    ShortText(S);
    EarlierIsReplaced(fingerprint, History(fingerprint, Merged(modes, control)), P + S, modes, control);
  }
}
