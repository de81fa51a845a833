/** The three-way merge: the loop over anchors and regions, and the shortcuts in
    front of it. */
module ThreeWay {
  import opened Text
  import opened LcsEngine
  import opened Diff3
  import opened Markers

  datatype MergeOutcome = Same | Clean | Unresolved | Merged

  datatype MergeResult = MergeResult(content: string, conflict: bool, outcome: MergeOutcome)

  // --- Rendering ----------------------------------------------------------------------------

  function RenderPiece(p: Piece<string>, labels: DiffLabels): seq<string> {
    if Conflicts(p) then ConflictBlock(p.generated, p.existing, labels) else Resolved(p)
  }

  function Render(ps: seq<Piece<string>>, labels: DiffLabels): seq<string> {
    if ps == [] then [] else RenderPiece(ps[0], labels) + Render(ps[1..], labels)
  }

  lemma RenderStep(r: Piece<string>, a: Piece<string>, rest: seq<Piece<string>>, labels: DiffLabels)
    ensures Render([r, a] + rest, labels) == RenderPiece(r, labels) + (RenderPiece(a, labels) + Render(rest, labels))
    ensures Render([r], labels) == RenderPiece(r, labels)
    ensures AnyConflict([r, a] + rest) == (Conflicts(r) || Conflicts(a) || AnyConflict(rest))
    ensures AnyConflict([r]) == Conflicts(r)
  {
    var ps := [r, a] + rest;
    assert ps[1..] == [a] + rest && ps[1..][1..] == rest && [r][1..] == [];
    assert ps[0] == r && ps[1] == a && forall i | 0 <= i < |rest| :: rest[i] == ps[i + 2];
    assert forall i | 2 <= i < |ps| :: ps[i] == rest[i - 2];
    assert [r][0] == r;
  }

  /** A region of three empty sides. */
  lemma EmptyRegion(labels: DiffLabels)
    ensures !Conflicts(Piece<string>.Region([], [], [])) && RenderPiece(Piece<string>.Region([], [], []), labels) == []
  {
  }

  // --- The merge loop ---------------------------------------------------------------------

  /** At an anchor, the loop emits the region in front of it and the anchor. */
  lemma AnchorStep(s: Sides<string>, bi: nat, gi: nat, ei: nat, labels: DiffLabels)
    requires s.Fits() && Ready(s, bi, gi, ei) && bi < |s.base| && Anchored(s.gMap, s.eMap, bi)
    ensures var g, e := s.gMap[bi], s.eMap[bi];
            && gi <= g < |s.generated| && ei <= e < |s.existing|
            && Ready(s, bi + 1, g + 1, e + 1)
            && var r := Region([], s.generated[gi..g], s.existing[ei..e]);
               && Render(Pieces(s, bi, gi, ei), labels)
                  == RenderPiece(r, labels) + ([s.base[bi]] + Render(Pieces(s, bi + 1, g + 1, e + 1), labels))
               && AnyConflict(Pieces(s, bi, gi, ei)) == (Conflicts(r) || AnyConflict(Pieces(s, bi + 1, g + 1, e + 1)))
  {
    hide Pieces, Ready, Render, AnyConflict;
    PiecesStep(s, bi, gi, ei);
    NextAnchorIs(s.gMap, s.eMap, bi, bi);
    var g, e := s.gMap[bi], s.eMap[bi];
    var r := Region([], s.generated[gi..g], s.existing[ei..e]);
    assert FirstRegion(s, bi, gi, ei) == r by { assert s.base[bi..bi] == []; }
    RenderStep(r, Anchor(s.base[bi]), Pieces(s, bi + 1, g + 1, e + 1), labels);
  }

  /** Elsewhere it emits the region up to the next anchor and stops in front of it. */
  lemma RegionStep(s: Sides<string>, bi: nat, gi: nat, ei: nat, next: nat, labels: DiffLabels)
    requires s.Fits() && Ready(s, bi, gi, ei) && next == NextAnchor(s.gMap, s.eMap, bi) < |s.base|
    ensures var g, e := s.gMap[next], s.eMap[next];
            && gi <= g < |s.generated| && ei <= e < |s.existing|
            && Ready(s, next, g, e)
            && var r := Region(s.base[bi..next], s.generated[gi..g], s.existing[ei..e]);
               && Render(Pieces(s, bi, gi, ei), labels)
                  == RenderPiece(r, labels) + Render(Pieces(s, next, g, e), labels)
               && AnyConflict(Pieces(s, bi, gi, ei)) == (Conflicts(r) || AnyConflict(Pieces(s, next, g, e)))
  {
    hide Pieces, Ready, Render, AnyConflict, RenderPiece;
    ReadyAtNext(s, bi, gi, ei, next);
    var r := FirstRegion(s, bi, gi, ei);
    PiecesStep(s, bi, gi, ei);
    var g, e := s.gMap[next], s.eMap[next];
    AnchorStep(s, next, g, e, labels);
    EmptyRegion(labels);
    assert s.generated[g..g] == [] && s.existing[e..e] == [];
    RenderStep(r, Anchor(s.base[next]), Pieces(s, next + 1, g + 1, e + 1), labels);
    AnchorRenders(s.base[next], labels);
  }

  lemma AnchorRenders(line: string, labels: DiffLabels)
    ensures RenderPiece(Anchor(line), labels) == [line] && !Conflicts(Anchor(line))
  {
  }

  /** The last region, after which nothing is left to render. */
  lemma LastRegionStep(s: Sides<string>, bi: nat, gi: nat, ei: nat, labels: DiffLabels)
    requires s.Fits() && Ready(s, bi, gi, ei) && NextAnchor(s.gMap, s.eMap, bi) == |s.base|
    ensures bi <= |s.base| && gi <= |s.generated| && ei <= |s.existing|
    ensures Ready(s, |s.base|, |s.generated|, |s.existing|)
    ensures var r := Region(s.base[bi..], s.generated[gi..], s.existing[ei..]);
            && Render(Pieces(s, bi, gi, ei), labels) == RenderPiece(r, labels)
            && AnyConflict(Pieces(s, bi, gi, ei)) == Conflicts(r)
    ensures Render(Pieces(s, |s.base|, |s.generated|, |s.existing|), labels) == []
    ensures !AnyConflict(Pieces(s, |s.base|, |s.generated|, |s.existing|))
  {
    hide Pieces, Ready, Render, AnyConflict, RenderPiece;
    ReadyAtNext(s, bi, gi, ei, |s.base|);
    var r, none := FirstRegion(s, bi, gi, ei), Piece<string>.Region([], [], []);
    PiecesStep(s, bi, gi, ei);
    RenderStep(r, r, [], labels);
    PiecesStep(s, |s.base|, |s.generated|, |s.existing|);
    NextAnchorIs(s.gMap, s.eMap, |s.base|, |s.base|);
    assert FirstRegion(s, |s.base|, |s.generated|, |s.existing|) == none;
    RenderStep(none, none, [], labels);
    EmptyRegion(labels);
  }

  lemma ReadyAtNext(s: Sides<string>, bi: nat, gi: nat, ei: nat, next: nat)
    requires s.Fits() && Ready(s, bi, gi, ei) && next == NextAnchor(s.gMap, s.eMap, bi)
    ensures bi <= next <= |s.base| && gi <= |s.generated| && ei <= |s.existing|
    ensures next == |s.base| ==> Ready(s, next, |s.generated|, |s.existing|)
    ensures next < |s.base| ==> gi <= s.gMap[next] < |s.generated| && ei <= s.eMap[next] < |s.existing|
                                && Ready(s, next, s.gMap[next], s.eMap[next])
  {
  }

  /** Reconciles what the two sides inserted at one place. */
  method WriteInsertions(out: seq<string>, gIns: seq<string>, eIns: seq<string>, labels: DiffLabels)
    returns (res: seq<string>, clash: bool)
    ensures res == out + RenderPiece(Region([], gIns, eIns), labels)
    ensures clash == Conflicts(Region([], gIns, eIns))
  {
    if gIns == eIns {
      return out + gIns, false;
    } else if |gIns| == 0 {
      return out + eIns, false;
    } else if |eIns| == 0 {
      return out + gIns, false;
    }
    res := WriteConflict(out, gIns, eIns, labels);
    clash := true;
  }

  /** Reconciles one region of the baseline with what became of it on both sides. */
  method WriteRegion(out: seq<string>, bRegion: seq<string>, gRegion: seq<string>, eRegion: seq<string>, labels: DiffLabels)
    returns (res: seq<string>, clash: bool)
    ensures res == out + RenderPiece(Region(bRegion, gRegion, eRegion), labels)
    ensures clash == Conflicts(Region(bRegion, gRegion, eRegion))
  {
    if bRegion == gRegion {
      return out + eRegion, false;
    } else if bRegion == eRegion {
      return out + gRegion, false;
    } else if gRegion == eRegion {
      return out + gRegion, false;
    }
    res := WriteConflict(out, gRegion, eRegion, labels);
    clash := true;
  }

  /** How far the loop has come: what is written so far, followed by the rendering of
      the pieces still ahead of the cursors, is the rendering of all pieces. */
  ghost predicate Emitted(s: Sides<string>, labels: DiffLabels, out: seq<string>, conflict: bool, bi: nat, gi: nat, ei: nat)
    requires s.Fits()
  {
    && Ready(s, bi, gi, ei)
    && Render(AllPieces(s), labels) == out + Render(Pieces(s, bi, gi, ei), labels)
    && AnyConflict(AllPieces(s)) == (conflict || AnyConflict(Pieces(s, bi, gi, ei)))
  }

  lemma EmittedNothing(s: Sides<string>, labels: DiffLabels)
    requires s.Valid()
    ensures Emitted(s, labels, [], false, 0, 0, 0)
  {
    ReadyAtStart(s);
    hide Ready, Render, AnyConflict, Pieces;
    assert [] + Render(Pieces(s, 0, 0, 0), labels) == Render(Pieces(s, 0, 0, 0), labels);
  }

  /** One turn of the loop at an anchor. */
  lemma EmittedAnchor(s: Sides<string>, labels: DiffLabels, out: seq<string>, conflict: bool, bi: nat, gi: nat, ei: nat)
    requires s.Fits() && Emitted(s, labels, out, conflict, bi, gi, ei)
    requires bi < |s.base| && Anchored(s.gMap, s.eMap, bi)
    ensures var g, e := s.gMap[bi], s.eMap[bi];
            && gi <= g < |s.generated| && ei <= e < |s.existing|
            && var r := Region([], s.generated[gi..g], s.existing[ei..e]);
               Emitted(s, labels, out + RenderPiece(r, labels) + [s.base[bi]], conflict || Conflicts(r), bi + 1, g + 1, e + 1)
  {
    hide Ready, Render, AnyConflict, Pieces, RenderPiece, Conflicts;
    AnchorStep(s, bi, gi, ei, labels);
  }

  /** Where the cursors go after the region that ends at next. */
  function RegionEnd(m: seq<int>, next: nat, end: nat): int
    requires next <= |m|
  {
    if next < |m| then m[next] else end
  }

  /** One turn of the loop elsewhere. */
  lemma EmittedRegion(s: Sides<string>, labels: DiffLabels, out: seq<string>, conflict: bool, bi: nat, gi: nat, ei: nat, next: nat)
    requires s.Fits() && Emitted(s, labels, out, conflict, bi, gi, ei)
    requires bi <= next <= |s.base| && next == NextAnchor(s.gMap, s.eMap, bi)
    ensures var g, e := RegionEnd(s.gMap, next, |s.generated|), RegionEnd(s.eMap, next, |s.existing|);
            && gi <= g <= |s.generated| && ei <= e <= |s.existing|
            && var r := Region(s.base[bi..next], s.generated[gi..g], s.existing[ei..e]);
               Emitted(s, labels, out + RenderPiece(r, labels), conflict || Conflicts(r), next, g, e)
  {
    hide Ready, Render, AnyConflict, Pieces, RenderPiece, Conflicts;
    if next < |s.base| {
      RegionStep(s, bi, gi, ei, next, labels);
    } else {
      LastRegionStep(s, bi, gi, ei, labels);
      assert s.base[bi..|s.base|] == s.base[bi..];
      assert s.generated[gi..|s.generated|] == s.generated[gi..] && s.existing[ei..|s.existing|] == s.existing[ei..];
    }
  }

  /** What is left after the last anchor. */
  lemma EmittedTail(s: Sides<string>, labels: DiffLabels, out: seq<string>, conflict: bool, gi: nat, ei: nat)
    requires s.Fits() && Emitted(s, labels, out, conflict, |s.base|, gi, ei)
    ensures gi <= |s.generated| && ei <= |s.existing|
    ensures var r := Region([], s.generated[gi..], s.existing[ei..]);
            && Render(AllPieces(s), labels) == out + RenderPiece(r, labels)
            && AnyConflict(AllPieces(s)) == (conflict || Conflicts(r))
  {
    hide Ready, Render, AnyConflict, Pieces, RenderPiece, Conflicts;
    NextAnchorIs(s.gMap, s.eMap, |s.base|, |s.base|);
    LastRegionStep(s, |s.base|, gi, ei, labels);
    assert s.base[|s.base|..] == [];
  }

  /** The diff3 loop itself, without the fast paths: its output is the rendering of
      the pieces and it reports a conflict exactly when some piece has one. */
  method MergeLines(gl: seq<string>, bl: seq<string>, el: seq<string>, labels: DiffLabels)
    returns (out: seq<string>, conflict: bool)
    ensures out == Render(AllPieces(Sides<string>.Of(bl, gl, el)), labels)
    ensures conflict == AnyConflict(AllPieces(Sides<string>.Of(bl, gl, el)))
  {
    hide Emitted, AllPieces, Render, AnyConflict, Align, RenderPiece, Conflicts, IsAlignment;
    var gArr := AlignLcs(bl, gl);
    var eArr := AlignLcs(bl, el);
    var gMap, eMap := gArr[..], eArr[..];
    ghost var s := Sides<string>.Of(bl, gl, el);
    EmittedNothing(s, labels);
    out, conflict := [], false;
    var bi, gi, ei := 0, 0, 0;
    var clash: bool;
    while bi < |bl|
      invariant 0 <= bi <= |bl| && 0 <= gi <= |gl| && 0 <= ei <= |el|
      invariant Emitted(s, labels, out, conflict, bi, gi, ei)
      decreases |bl| - bi, if bi < |bl| && Anchored(gMap, eMap, bi) then 0 else 1
    {
      if gMap[bi] >= 0 && eMap[bi] >= 0 {
        EmittedAnchor(s, labels, out, conflict, bi, gi, ei);
        out, clash := WriteInsertions(out, gl[gi..gMap[bi]], el[ei..eMap[bi]], labels);
        conflict := conflict || clash;
        out := out + [bl[bi]];
        gi, ei := gMap[bi] + 1, eMap[bi] + 1;
        bi := bi + 1;
      } else {
        var next := bi;
        while next < |bl| && (gMap[next] < 0 || eMap[next] < 0)
          invariant bi <= next <= |bl|
          invariant forall k | bi <= k < next :: !Anchored(gMap, eMap, k)
        {
          next := next + 1;
        }
        NextAnchorIs(gMap, eMap, bi, next);
        EmittedRegion(s, labels, out, conflict, bi, gi, ei, next);
        var gEnd := if next < |bl| then gMap[next] else |gl|;
        var eEnd := if next < |bl| then eMap[next] else |el|;
        out, clash := WriteRegion(out, bl[bi..next], gl[gi..gEnd], el[ei..eEnd], labels);
        conflict := conflict || clash;
        bi, gi, ei := next, gEnd, eEnd;
      }
    }
    EmittedTail(s, labels, out, conflict, gi, ei);
    if gi < |gl| || ei < |el| {
      out, clash := WriteInsertions(out, gl[gi..], el[ei..], labels);
      conflict := conflict || clash;
    } else {
      assert gl[gi..] == [] && el[ei..] == [];
      EmptyRegion(labels);
    }
    assert s == Sides<string>.Of(bl, gl, el);
  }

  lemma ReadyAtStart(s: Sides<string>)
    requires s.Valid()
    ensures Ready(s, 0, 0, 0)
  {
  }

  // --- The merge -------------------------------------------------------------------------

  /** The pieces of three texts. */
  ghost function PiecesOf(generated: string, baseline: string, existing: string): seq<Piece<string>> {
    AllPieces(Sides<string>.Of(LinesOf(baseline), LinesOf(generated), LinesOf(existing)))
  }

  /** What the loop makes of three texts when no shortcut is taken. */
  ghost function LoopContent(generated: string, baseline: string, existing: string, labels: DiffLabels): string {
    Join(Render(PiecesOf(generated, baseline, existing), labels))
  }

  ghost predicate LoopConflict(generated: string, baseline: string, existing: string) {
    AnyConflict(PiecesOf(generated, baseline, existing))
  }

  /** The merge, shortcuts first. */
  ghost function MergeOf(generated: string, baseline: string, existing: string, spec: DiffSpec): MergeResult {
    if generated == existing then MergeResult(existing, false, Same)
    else if existing == baseline then MergeResult(generated, false, Clean)
    else if HasConflicts(existing, ExplicitLabels(spec)) then MergeResult(existing, false, Unresolved)
    else MergeResult(LoopContent(generated, baseline, existing, LabelsOf(spec, "merge")),
                     LoopConflict(generated, baseline, existing), Merged)
  }

  method Merge(generated: string, baseline: string, existing: string, spec: DiffSpec) returns (r: MergeResult)
    ensures r == MergeOf(generated, baseline, existing, spec)
  {
    if generated == existing {
      return MergeResult(existing, false, Same);
    }
    if existing == baseline {
      return MergeResult(generated, false, Clean);
    }
    if HasConflicts(existing, ExplicitLabels(spec)) {
      return MergeResult(existing, false, Unresolved);
    }
    hide HasConflicts, LinesOf, Join, Render, AllPieces, AnyConflict;
    var gl := Lines(generated);
    var bl := Lines(baseline);
    var el := Lines(existing);
    var out, conflict := MergeLines(gl, bl, el, LabelsOf(spec, "merge"));
    r := MergeResult(Join(out), conflict, Merged);
  }
}
