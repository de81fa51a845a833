/** How three line sequences fall into matching pieces around the baseline lines
    that both other sides keep, and which side each piece resolves to. */
module Diff3 {
  import opened LcsEngine

  /** A baseline line both sides keep, or what the three sides hold between two of
      those. */
  datatype Piece<T> =
    | Anchor(line: T)
    | Region(base: seq<T>, generated: seq<T>, existing: seq<T>)

  datatype Side = Base | Generated | Existing

  /** The three texts and the anchor maps of the baseline into the other two. */
  datatype Sides<T> = Sides(base: seq<T>, generated: seq<T>, existing: seq<T>,
                            gMap: seq<int>, eMap: seq<int>)
  {
    ghost predicate Fits() {
      |gMap| == |eMap| == |base|
    }

    ghost predicate Valid() {
      && IsAlignment(base, generated, gMap)
      && IsAlignment(base, existing, eMap)
    }

    /** The three texts, aligned as the merge aligns them. */
    static ghost function Of(base: seq<T>, generated: seq<T>, existing: seq<T>): (s: Sides<T>)
      ensures s.Valid()
    {
      AlignIsAlignment(base, generated);
      AlignIsAlignment(base, existing);
      Sides(base, generated, existing, Align(base, generated), Align(base, existing))
    }

    /** The same three texts with generated and existing exchanged. */
    function Swap(): Sides<T> {
      Sides(base, existing, generated, eMap, gMap)
    }
  }

  predicate Anchored(gMap: seq<int>, eMap: seq<int>, i: nat)
    requires i < |gMap| == |eMap|
  {
    gMap[i] >= 0 && eMap[i] >= 0
  }

  /** The first doubly anchored baseline line at or after i. */
  ghost function NextAnchor(gMap: seq<int>, eMap: seq<int>, i: nat): (next: nat)
    requires i <= |gMap| == |eMap|
    ensures i <= next <= |gMap|
    ensures forall k | i <= k < next :: !Anchored(gMap, eMap, k)
    ensures next < |gMap| ==> Anchored(gMap, eMap, next)
    decreases |gMap| - i
  {
    if i == |gMap| || Anchored(gMap, eMap, i) then i else NextAnchor(gMap, eMap, i + 1)
  }

  lemma NextAnchorIs(gMap: seq<int>, eMap: seq<int>, i: nat, n: nat)
    requires i <= n <= |gMap| == |eMap|
    requires forall k | i <= k < n :: !Anchored(gMap, eMap, k)
    requires n < |gMap| ==> Anchored(gMap, eMap, n)
    ensures NextAnchor(gMap, eMap, i) == n
  {
    var next := NextAnchor(gMap, eMap, i);
    assert !(next < n) && !(n < next);
  }

  /** Sound anchor maps, and cursors that no remaining anchor points back across. */
  ghost predicate Ready<T>(s: Sides<T>, bi: nat, gi: nat, ei: nat)
    requires s.Fits()
  {
    && s.Valid()
    && bi <= |s.base| && gi <= |s.generated| && ei <= |s.existing|
    && forall k | bi <= k < |s.base| && Anchored(s.gMap, s.eMap, k) :: gi <= s.gMap[k] && ei <= s.eMap[k]
  }

  /** What lies between the cursors and the next anchor, or the ends of the texts. */
  ghost function FirstRegion<T>(s: Sides<T>, bi: nat, gi: nat, ei: nat): (r: Piece<T>)
    requires s.Fits() && Ready(s, bi, gi, ei)
    ensures r.Region?
  {
    var next := NextAnchor(s.gMap, s.eMap, bi);
    if next == |s.base| then Region(s.base[bi..], s.generated[gi..], s.existing[ei..])
    else Region(s.base[bi..next], s.generated[gi..s.gMap[next]], s.existing[ei..s.eMap[next]])
  }

  /** The pieces from the cursors on: a region before each anchor, and a last one. */
  ghost function Pieces<T>(s: Sides<T>, bi: nat, gi: nat, ei: nat): seq<Piece<T>>
    requires s.Fits() && Ready(s, bi, gi, ei)
    decreases |s.base| - bi
  {
    var next := NextAnchor(s.gMap, s.eMap, bi);
    if next == |s.base| then [FirstRegion(s, bi, gi, ei)]
    else [FirstRegion(s, bi, gi, ei), Anchor(s.base[next])] + Pieces(s, next + 1, s.gMap[next] + 1, s.eMap[next] + 1)
  }

  lemma PiecesStep<T>(s: Sides<T>, bi: nat, gi: nat, ei: nat)
    requires s.Fits() && Ready(s, bi, gi, ei)
    ensures var next := NextAnchor(s.gMap, s.eMap, bi);
            if next == |s.base| then Pieces(s, bi, gi, ei) == [FirstRegion(s, bi, gi, ei)]
            else
              var g, e := s.gMap[next], s.eMap[next];
              && gi <= g < |s.generated| && ei <= e < |s.existing|
              && s.base[next] == s.generated[g] == s.existing[e]
              && Ready(s, next + 1, g + 1, e + 1)
              && Pieces(s, bi, gi, ei)
                 == [FirstRegion(s, bi, gi, ei), Anchor(s.base[next])] + Pieces(s, next + 1, g + 1, e + 1)
  {
  }

  ghost function AllPieces<T>(s: Sides<T>): seq<Piece<T>>
    requires s.Valid()
  {
    Pieces(s, 0, 0, 0)
  }

  // --- The pieces partition all three texts, at the anchors ------------------------

  function SideOf<T>(p: Piece<T>, side: Side): seq<T> {
    match p
    case Anchor(line) => [line]
    case Region(b, g, e) => match side case Base => b case Generated => g case Existing => e
  }

  function Flatten<T>(ps: seq<Piece<T>>, side: Side): seq<T> {
    if ps == [] then [] else SideOf(ps[0], side) + Flatten(ps[1..], side)
  }

  lemma FlattenStep<T>(r: Piece<T>, a: Piece<T>, rest: seq<Piece<T>>, side: Side)
    ensures Flatten([r, a] + rest, side) == SideOf(r, side) + SideOf(a, side) + Flatten(rest, side)
    ensures Flatten([r], side) == SideOf(r, side)
  {
    assert ([r, a] + rest)[1..] == [a] + rest && ([a] + rest)[1..] == rest;
    assert [r][1..] == [];
  }

  lemma CutAround<T>(xs: seq<T>, i: nat, j: nat)
    requires i <= j < |xs|
    ensures xs[i..j] + [xs[j]] + xs[j + 1..] == xs[i..]
  {
  }

  lemma {:induction false} PiecesPartition<T>(s: Sides<T>, bi: nat, gi: nat, ei: nat)
    requires s.Fits() && Ready(s, bi, gi, ei)
    ensures Flatten(Pieces(s, bi, gi, ei), Base) == s.base[bi..]
    ensures Flatten(Pieces(s, bi, gi, ei), Generated) == s.generated[gi..]
    ensures Flatten(Pieces(s, bi, gi, ei), Existing) == s.existing[ei..]
    decreases |s.base| - bi
  {
    hide Flatten, Pieces, Ready;
    PiecesStep(s, bi, gi, ei);
    var next := NextAnchor(s.gMap, s.eMap, bi);
    var r := FirstRegion(s, bi, gi, ei);
    if next == |s.base| {
      FlattenStep(r, r, [], Base);
      FlattenStep(r, r, [], Generated);
      FlattenStep(r, r, [], Existing);
    } else {
      var g, e := s.gMap[next], s.eMap[next];
      var rest, a := Pieces(s, next + 1, g + 1, e + 1), Anchor(s.base[next]);
      PiecesPartition(s, next + 1, g + 1, e + 1);
      FlattenStep(r, a, rest, Base);
      FlattenStep(r, a, rest, Generated);
      FlattenStep(r, a, rest, Existing);
      CutAround(s.base, bi, next);
      CutAround(s.generated, gi, g);
      CutAround(s.existing, ei, e);
    }
  }

  /** The pieces of a merge, concatenated on one side, are that side's text. */
  lemma PartitionIsExact<T>(s: Sides<T>)
    requires s.Valid()
    ensures Flatten(AllPieces(s), Base) == s.base
    ensures Flatten(AllPieces(s), Generated) == s.generated
    ensures Flatten(AllPieces(s), Existing) == s.existing
  {
    PiecesPartition(s, 0, 0, 0);
  }

  /** The doubly anchored baseline lines from bi on. */
  ghost function AnchorLines<T>(s: Sides<T>, bi: nat): seq<T>
    requires s.Fits() && bi <= |s.base|
    decreases |s.base| - bi
  {
    if bi == |s.base| then []
    else (if Anchored(s.gMap, s.eMap, bi) then [s.base[bi]] else []) + AnchorLines(s, bi + 1)
  }

  lemma {:induction false} SkipUnanchored<T>(s: Sides<T>, bi: nat, next: nat)
    requires s.Fits() && bi <= next <= |s.base|
    requires forall k | bi <= k < next :: !Anchored(s.gMap, s.eMap, k)
    ensures AnchorLines(s, bi) == AnchorLines(s, next)
    decreases next - bi
  {
    if bi < next {
      SkipUnanchored(s, bi + 1, next);
    }
  }

  /** The lines at the odd places of a list of pieces. */
  ghost function OddLines<T>(ps: seq<Piece<T>>): seq<T>
    requires forall i | 0 <= i < |ps| && i % 2 == 1 :: ps[i].Anchor?
    decreases |ps|
  {
    if |ps| <= 1 then [] else [ps[1].line] + OddLines(ps[2..])
  }

  /** Regions and anchors strictly alternate, a region first and last. */
  ghost predicate Alternate<T>(ps: seq<Piece<T>>) {
    && |ps| % 2 == 1
    && (forall i | 0 <= i < |ps| && i % 2 == 0 :: ps[i].Region?)
    && (forall i | 0 <= i < |ps| && i % 2 == 1 :: ps[i].Anchor?)
  }

  /** The pieces are cut at every doubly anchored line and nowhere else. */
  lemma {:induction false} PiecesCutAtAnchors<T>(s: Sides<T>, bi: nat, gi: nat, ei: nat)
    requires s.Fits() && Ready(s, bi, gi, ei)
    ensures Alternate(Pieces(s, bi, gi, ei))
    ensures OddLines(Pieces(s, bi, gi, ei)) == AnchorLines(s, bi)
    decreases |s.base| - bi
  {
    hide Pieces, Ready, FirstRegion, OddLines, Alternate;
    PiecesStep(s, bi, gi, ei);
    var next := NextAnchor(s.gMap, s.eMap, bi);
    SkipUnanchored(s, bi, next);
    var r := FirstRegion(s, bi, gi, ei);
    if next < |s.base| {
      var g, e := s.gMap[next], s.eMap[next];
      PiecesCutAtAnchors(s, next + 1, g + 1, e + 1);
      AlternateStep(r, s.base[next], Pieces(s, next + 1, g + 1, e + 1));
    } else {
      LastAlternates(r);
    }
  }

  lemma LastAlternates<T>(r: Piece<T>)
    requires r.Region?
    ensures Alternate([r]) && OddLines([r]) == []
  {
  }

  lemma AlternateStep<T>(r: Piece<T>, line: T, rest: seq<Piece<T>>)
    requires r.Region? && Alternate(rest)
    ensures Alternate([r, Anchor(line)] + rest)
    ensures OddLines([r, Anchor(line)] + rest) == [line] + OddLines(rest)
  {
    assert ([r, Anchor(line)] + rest)[2..] == rest;
  }

  // --- Resolution ---------------------------------------------------------------------

  /** No two of the three sides agree. */
  predicate Conflicts<T(==)>(p: Piece<T>) {
    p.Region? && p.base != p.generated && p.base != p.existing && p.generated != p.existing
  }

  /** What a piece without a conflict resolves to: the side that moved away from the
      baseline. */
  function Resolved<T(==)>(p: Piece<T>): seq<T> {
    match p
    case Anchor(line) => [line]
    case Region(b, g, e) => if b == g then e else g
  }

  ghost predicate AnyConflict<T>(ps: seq<Piece<T>>) {
    exists i | 0 <= i < |ps| :: Conflicts(ps[i])
  }

  function ResolveAll<T(==)>(ps: seq<Piece<T>>): seq<T> {
    if ps == [] then [] else Resolved(ps[0]) + ResolveAll(ps[1..])
  }

  /** When every region leaves one side at the baseline, or both sides agree, the
      result is the text of the side that moved. */
  lemma {:induction false} ResolvesToSide<T>(ps: seq<Piece<T>>, side: Side)
    requires forall i | 0 <= i < |ps| && ps[i].Region? :: Resolved(ps[i]) == SideOf(ps[i], side)
    ensures ResolveAll(ps) == Flatten(ps, side)
  {
    if ps != [] {
      assert forall i | 0 <= i < |ps[1..]| :: ps[1..][i] == ps[i + 1];
      ResolvesToSide(ps[1..], side);
    }
  }

  // --- Laws -----------------------------------------------------------------------------

  /** A side aligned with the baseline as itself agrees with it in every region. */
  lemma {:induction false} UntouchedExisting<T>(s: Sides<T>, bi: nat, gi: nat)
    requires s.Fits() && s.existing == s.base && Ready(s, bi, gi, bi)
    requires forall i | 0 <= i < |s.base| :: s.eMap[i] == i
    ensures forall p | p in Pieces(s, bi, gi, bi) && p.Region? :: p.existing == p.base
    decreases |s.base| - bi
  {
    hide Pieces, Ready;
    PiecesStep(s, bi, gi, bi);
    var next := NextAnchor(s.gMap, s.eMap, bi);
    if next < |s.base| {
      UntouchedExisting(s, next + 1, s.gMap[next] + 1);
    }
  }

  lemma {:induction false} AgreeingSides<T>(s: Sides<T>, bi: nat, gi: nat)
    requires s.Fits() && s.existing == s.generated && s.eMap == s.gMap && Ready(s, bi, gi, gi)
    ensures forall p | p in Pieces(s, bi, gi, gi) && p.Region? :: p.existing == p.generated
    decreases |s.base| - bi
  {
    hide Pieces, Ready;
    PiecesStep(s, bi, gi, gi);
    var next := NextAnchor(s.gMap, s.eMap, bi);
    if next < |s.base| {
      AgreeingSides(s, next + 1, s.gMap[next] + 1);
    }
  }

  function SwapPiece<T>(p: Piece<T>): Piece<T> {
    match p
    case Anchor(_) => p
    case Region(b, g, e) => Region(b, e, g)
  }

  lemma NextAnchorSwap(gMap: seq<int>, eMap: seq<int>, i: nat)
    requires i <= |gMap| == |eMap|
    ensures NextAnchor(gMap, eMap, i) == NextAnchor(eMap, gMap, i)
  {
    var n := NextAnchor(gMap, eMap, i);
    assert forall k | 0 <= k < |gMap| :: Anchored(eMap, gMap, k) == Anchored(gMap, eMap, k);
    NextAnchorIs(eMap, gMap, i, n);
  }

  lemma CursorsSwap<T>(s: Sides<T>, bi: nat, gi: nat, ei: nat)
    requires s.Fits() && Ready(s, bi, gi, ei)
    ensures s.Swap().Fits() && Ready(s.Swap(), bi, ei, gi)
    ensures FirstRegion(s.Swap(), bi, ei, gi) == SwapPiece(FirstRegion(s, bi, gi, ei))
  {
    assert forall k | 0 <= k < |s.base| :: Anchored(s.gMap, s.eMap, k) == Anchored(s.eMap, s.gMap, k);
    NextAnchorSwap(s.gMap, s.eMap, bi);
  }

  function SwapAll<T>(ps: seq<Piece<T>>): seq<Piece<T>> {
    seq(|ps|, i requires 0 <= i < |ps| => SwapPiece(ps[i]))
  }

  /** Exchanging the two sides exchanges them in every piece and moves no cut. */
  lemma {:induction false} PiecesSwap<T>(s: Sides<T>, bi: nat, gi: nat, ei: nat)
    requires s.Fits() && Ready(s, bi, gi, ei)
    ensures s.Swap().Fits() && Ready(s.Swap(), bi, ei, gi)
    ensures Pieces(s.Swap(), bi, ei, gi) == SwapAll(Pieces(s, bi, gi, ei))
    decreases |s.base| - bi
  {
    hide Pieces, Ready, FirstRegion;
    CursorsSwap(s, bi, gi, ei);
    PiecesStep(s, bi, gi, ei);
    PiecesStep(s.Swap(), bi, ei, gi);
    NextAnchorSwap(s.gMap, s.eMap, bi);
    var next := NextAnchor(s.gMap, s.eMap, bi);
    if next < |s.base| {
      PiecesSwap(s, next + 1, s.gMap[next] + 1, s.eMap[next] + 1);
    }
  }

  /** Merging is symmetric: the same pieces conflict, and where none does the same
      lines come out. */
  lemma ResolutionIsSymmetric<T>(s: Sides<T>)
    requires s.Valid()
    ensures AnyConflict(AllPieces(s.Swap())) == AnyConflict(AllPieces(s))
    ensures !AnyConflict(AllPieces(s)) ==> ResolveAll(AllPieces(s.Swap())) == ResolveAll(AllPieces(s))
  {
    PiecesSwap(s, 0, 0, 0);
    var ps, qs := AllPieces(s), AllPieces(s.Swap());
    hide Pieces;
    assert forall i | 0 <= i < |ps| :: Conflicts(qs[i]) == Conflicts(ps[i]);
    if !AnyConflict(ps) {
      SwappedResolution(ps, qs);
    }
  }

  lemma {:induction false} SwappedResolution<T>(ps: seq<Piece<T>>, qs: seq<Piece<T>>)
    requires |ps| == |qs| && forall i | 0 <= i < |ps| :: qs[i] == SwapPiece(ps[i]) && !Conflicts(ps[i])
    ensures ResolveAll(ps) == ResolveAll(qs)
  {
    if ps != [] {
      assert !Conflicts(ps[0]) && qs[0] == SwapPiece(ps[0]);
      SwappedResolution(ps[1..], qs[1..]);
    }
  }

  /** With existing at the baseline, generated comes out whole. */
  lemma UntouchedTakesGenerated<T>(base: seq<T>, generated: seq<T>)
    ensures var ps := AllPieces(Sides<T>.Of(base, generated, base));
            !AnyConflict(ps) && ResolveAll(ps) == generated
  {
    var s := Sides<T>.Of(base, generated, base);
    AlignSelf(base);
    UntouchedExisting(s, 0, 0);
    PartitionIsExact(s);
    hide Pieces, Flatten, ResolveAll;
    NoneMoved(AllPieces(s));
    ResolvesToSide(AllPieces(s), Generated);
  }

  lemma NoneMoved<T>(ps: seq<Piece<T>>)
    requires forall p | p in ps && p.Region? :: p.existing == p.base
    ensures !AnyConflict(ps)
    ensures forall i | 0 <= i < |ps| && ps[i].Region? :: Resolved(ps[i]) == SideOf(ps[i], Generated)
  {
    assert forall i | 0 <= i < |ps| :: ps[i] in ps;
  }

  /** With generated at the baseline, existing comes out whole. */
  lemma UnchangedGenerateKeepsExisting<T>(base: seq<T>, existing: seq<T>)
    ensures var ps := AllPieces(Sides<T>.Of(base, base, existing));
            !AnyConflict(ps) && ResolveAll(ps) == existing
  {
    UntouchedTakesGenerated(base, existing);
    ResolutionIsSymmetric(Sides<T>.Of(base, existing, base));
  }

  /** With both sides alike, their common text comes out whole. */
  lemma AgreementIsKept<T>(base: seq<T>, common: seq<T>)
    ensures var ps := AllPieces(Sides<T>.Of(base, common, common));
            !AnyConflict(ps) && ResolveAll(ps) == common
  {
    var s := Sides<T>.Of(base, common, common);
    AgreeingSides(s, 0, 0);
    ResolvesToSide(AllPieces(s), Generated);
    PartitionIsExact(s);
  }
}
