/** What the three-way merge promises: the equality shortcuts change nothing, the sides
    are interchangeable, and no edit is lost. */
module MergeLaws {
  import opened Text
  import opened Diff3
  import opened Markers
  import opened ThreeWay

  // --- The shortcuts are pure speed ------------------------------------------------

  lemma {:induction false} CleanRender(ps: seq<Piece<string>>, labels: DiffLabels)
    requires !AnyConflict(ps)
    ensures Render(ps, labels) == ResolveAll(ps)
  {
    if ps != [] {
      assert !Conflicts(ps[0]);
      assert forall i | 0 <= i < |ps[1..]| :: ps[1..][i] == ps[i + 1];
      CleanRender(ps[1..], labels);
    }
  }

  /** The loop reaches the same answer as each shortcut, and never with a conflict. */
  lemma ShortcutsAreExact(generated: string, baseline: string, existing: string, labels: DiffLabels)
    ensures existing == baseline ==>
              LoopContent(generated, baseline, existing, labels) == generated && !LoopConflict(generated, baseline, existing)
    ensures generated == baseline ==>
              LoopContent(generated, baseline, existing, labels) == existing && !LoopConflict(generated, baseline, existing)
    ensures generated == existing ==>
              LoopContent(generated, baseline, existing, labels) == existing && !LoopConflict(generated, baseline, existing)
  {
    var gl, bl, el := LinesOf(generated), LinesOf(baseline), LinesOf(existing);
    var ps := PiecesOf(generated, baseline, existing);
    LinesOfIsLines(generated);
    LinesOfIsLines(existing);
    hide LinesOf, Join, Render, AllPieces, AnyConflict, ResolveAll;
    if existing == baseline {
      UntouchedTakesGenerated(bl, gl);
      CleanRender(ps, labels);
    }
    if generated == baseline {
      UnchangedGenerateKeepsExisting(bl, el);
      CleanRender(ps, labels);
    }
    if generated == existing {
      AgreementIsKept(bl, gl);
      CleanRender(ps, labels);
    }
  }

  /** Exchanging generated and existing keeps the conflict flag, and the content when
      there is no conflict. */
  lemma MergeIsSymmetric(generated: string, baseline: string, existing: string, labels: DiffLabels)
    ensures LoopConflict(existing, baseline, generated) == LoopConflict(generated, baseline, existing)
    ensures !LoopConflict(generated, baseline, existing) ==>
              LoopContent(existing, baseline, generated, labels) == LoopContent(generated, baseline, existing, labels)
  {
    var s := Sides<string>.Of(LinesOf(baseline), LinesOf(generated), LinesOf(existing));
    ResolutionIsSymmetric(s);
    hide LinesOf, Join, Render, AllPieces, AnyConflict, ResolveAll;
    if !LoopConflict(generated, baseline, existing) {
      CleanRender(AllPieces(s), labels);
      CleanRender(AllPieces(s.Swap()), labels);
    }
  }

  // --- The guard is not -------------------------------------------------------------------

  /** The merge gives what the loop gives. */
  ghost predicate AgreesWithLoop(generated: string, baseline: string, existing: string, spec: DiffSpec) {
    var r := MergeOf(generated, baseline, existing, spec);
    && r.content == LoopContent(generated, baseline, existing, LabelsOf(spec, "merge"))
    && r.conflict == LoopConflict(generated, baseline, existing)
  }

  /** Without unresolved markers, or where a shortcut applies, the merge is the loop. */
  lemma MergeIsLoop(generated: string, baseline: string, existing: string, spec: DiffSpec)
    requires !HasConflicts(existing, ExplicitLabels(spec)) || generated == existing || existing == baseline || generated == baseline
    ensures AgreesWithLoop(generated, baseline, existing, spec)
  {
    ShortcutsAreExact(generated, baseline, existing, LabelsOf(spec, "merge"));
    hide LoopContent, LoopConflict, HasConflicts, LabelsOf;
  }

  /** A line that is in neither text. */
  function FreshLine(baseline: string, existing: string): (line: string)
    ensures |line| == |baseline| + |existing| + 1 && NEWLINE !in line
  {
    seq(|baseline| + |existing| + 1, _ => 'x')
  }

  lemma {:induction false} LineIsShorter(lines: seq<string>, i: nat)
    requires i < |lines|
    ensures |lines[i]| <= |Join(lines)|
  {
    if i > 0 {
      LineIsShorter(lines[1..], i - 1);
    }
  }

  lemma LinesOfLine(line: string)
    requires line != "" && NEWLINE !in line
    ensures LinesOf(line) == [line]
  {
    EmptyHasNoLines();
    TakeLine(line, "");
    assert line + "" == line;
  }

  /** A generate of one line that neither other text has conflicts with a changed file. */
  lemma FreshGenerateConflicts(baseline: string, existing: string)
    requires existing != baseline
    ensures LoopConflict(FreshLine(baseline, existing), baseline, existing)
  {
    var line := FreshLine(baseline, existing);
    var bl, gl, el := LinesOf(baseline), LinesOf(line), LinesOf(existing);
    LinesOfLine(line);
    LinesOfIsLines(baseline);
    LinesOfIsLines(existing);
    hide LinesOf, IsLines, FreshLine;
    var s := Sides<string>.Of(bl, gl, el);
    forall i | 0 <= i < |bl| ensures !Anchored(s.gMap, s.eMap, i) {
      LineIsShorter(bl, i);
    }
    NextAnchorIs(s.gMap, s.eMap, 0, |bl|);
    ReadyAtStart(s);
    PiecesStep(s, 0, 0, 0);
    var r := FirstRegion(s, 0, 0, 0);
    assert r == Region(bl, gl, el);
    JoinOne(line);
    assert Join(gl) == line && bl != el && gl != bl && gl != el;
    assert AllPieces(s) == [r] && Conflicts([r][0]);
  }

  /** For every generate the merge gives what the loop gives, exactly when the file holds
      no unresolved markers or is still the baseline. */
  lemma GuardDecides(baseline: string, existing: string, spec: DiffSpec)
    ensures (forall generated :: AgreesWithLoop(generated, baseline, existing, spec))
       <==> !HasConflicts(existing, ExplicitLabels(spec)) || existing == baseline
  {
    hide LoopContent, LoopConflict, HasConflicts, LabelsOf, AgreesWithLoop;
    if !HasConflicts(existing, ExplicitLabels(spec)) || existing == baseline {
      forall generated ensures AgreesWithLoop(generated, baseline, existing, spec) {
        MergeIsLoop(generated, baseline, existing, spec);
      }
    } else {
      var generated := FreshLine(baseline, existing);
      FreshGenerateConflicts(baseline, existing);
      assert !AgreesWithLoop(generated, baseline, existing, spec) by {
        GuardHidesConflict(generated, baseline, existing, spec);
      }
    }
  }

  lemma GuardHidesConflict(generated: string, baseline: string, existing: string, spec: DiffSpec)
    requires generated != existing && existing != baseline && HasConflicts(existing, ExplicitLabels(spec))
    requires LoopConflict(generated, baseline, existing)
    ensures !AgreesWithLoop(generated, baseline, existing, spec)
  {
    hide LoopContent, LoopConflict, HasConflicts, LabelsOf;
  }

  // --- No edit is lost -----------------------------------------------------------------

  ghost predicate IsSegment<T>(part: seq<T>, whole: seq<T>) {
    exists i | 0 <= i <= |whole| - |part| :: SegmentAt(part, whole, i)
  }

  ghost predicate SegmentAt<T>(part: seq<T>, whole: seq<T>, i: nat) {
    i + |part| <= |whole| && whole[i..i + |part|] == part
  }

  lemma SegmentBetween<T>(before: seq<T>, part: seq<T>, after: seq<T>)
    ensures IsSegment(part, before + part + after)
  {
    assert SegmentAt(part, before + part + after, |before|);
  }

  /** The rendering goes piece by piece, in order. */
  lemma {:induction false} RenderAround(ps: seq<Piece<string>>, i: nat, labels: DiffLabels)
    requires i < |ps|
    ensures Render(ps, labels) == Render(ps[..i], labels) + RenderPiece(ps[i], labels) + Render(ps[i + 1..], labels)
  {
    hide RenderPiece, Render;
    RenderFirst(ps, labels);
    if i == 0 {
      RenderNothing(labels);
      assert ps[..0] == [] && [] + RenderPiece(ps[0], labels) == RenderPiece(ps[0], labels);
    } else {
      var rest := ps[1..];
      RenderAround(rest, i - 1, labels);
      assert rest[..i - 1] == ps[..i][1..] && rest[i..] == ps[i + 1..] && rest[i - 1] == ps[i] && ps[..i][0] == ps[0];
      RenderFirst(ps[..i], labels);
      ThreeParts(RenderPiece(ps[0], labels), Render(rest[..i - 1], labels), RenderPiece(ps[i], labels), Render(rest[i..], labels));
    }
  }

  lemma RenderFirst(ps: seq<Piece<string>>, labels: DiffLabels)
    requires ps != []
    ensures Render(ps, labels) == RenderPiece(ps[0], labels) + Render(ps[1..], labels)
  {
  }

  lemma RenderNothing(labels: DiffLabels)
    ensures Render([], labels) == []
  {
  }

  lemma ThreeParts<T>(a: seq<T>, b: seq<T>, c: seq<T>, d: seq<T>)
    ensures a + (b + c + d) == (a + b) + c + d
  {
  }

  /** What becomes of a side that moved away from the baseline: it stands whole in the
      rendering, and without a conflict it is the rendering, so that lines it deleted
      stay deleted. */
  ghost predicate KeepsSide(side: seq<string>, p: Piece<string>, labels: DiffLabels)
    requires p.Region?
  {
    side != p.base ==>
      && IsSegment(side, RenderPiece(p, labels))
      && (!Conflicts(p) ==> RenderPiece(p, labels) == side)
  }

  /** A side that moved away from the baseline is kept, whatever the other side did; only
      a side still at the baseline can be missing from its piece. */
  lemma PieceKeepsEdits(p: Piece<string>, labels: DiffLabels)
    requires p.Region?
    ensures KeepsSide(p.existing, p, labels) && KeepsSide(p.generated, p, labels)
    ensures Conflicts(p) <==> p.base != p.generated && p.base != p.existing && p.generated != p.existing
  {
    if Conflicts(p) {
      ConflictKeepsBothSides(p.generated, p.existing, labels);
    } else {
      var r := Resolved(p);
      assert [] + r + [] == r;
      SegmentBetween([], r, []);
    }
  }

  lemma ConflictKeepsBothSides(generated: seq<string>, existing: seq<string>, labels: DiffLabels)
    ensures IsSegment(existing, ConflictBlock(generated, existing, labels))
    ensures IsSegment(generated, ConflictBlock(generated, existing, labels))
  {
    var open, close := [MARK_START + labels.existing + "\n"], [MARK_END + labels.generated + "\n"];
    var block := ConflictBlock(generated, existing, labels);
    var eEnd, gEnd := Closed(existing)[|existing|..], Closed(generated)[|generated|..];
    assert block == open + existing + (eEnd + [MARK_MID] + Closed(generated) + close);
    SegmentBetween(open, existing, eEnd + [MARK_MID] + Closed(generated) + close);
    assert block == (open + Closed(existing) + [MARK_MID]) + generated + (gEnd + close);
    SegmentBetween(open + Closed(existing) + [MARK_MID], generated, gEnd + close);
  }

  /** Loss-freedom of a whole merge. The three texts are exactly the three sides of
      the pieces; the output is the pieces' renderings in order; the i-th rendering
      holds every side of the i-th piece that differs from the baseline; and a
      conflict is reported exactly when some piece's three sides are pairwise
      different. */
  lemma MergeLosesNoEdit(generated: string, baseline: string, existing: string, labels: DiffLabels, i: nat)
    requires i < |PiecesOf(generated, baseline, existing)|
    ensures var ps := PiecesOf(generated, baseline, existing);
            && Alternate(ps)
            && Join(Flatten(ps, Base)) == baseline
            && Join(Flatten(ps, Generated)) == generated
            && Join(Flatten(ps, Existing)) == existing
            && LoopContent(generated, baseline, existing, labels)
               == Join(Render(ps[..i], labels)) + Join(RenderPiece(ps[i], labels)) + Join(Render(ps[i + 1..], labels))
            && (ps[i].Region? ==> KeepsSide(ps[i].existing, ps[i], labels) && KeepsSide(ps[i].generated, ps[i], labels))
            && (ps[i].Anchor? ==> RenderPiece(ps[i], labels) == [ps[i].line])
    ensures LoopConflict(generated, baseline, existing) <==>
              exists k, r :: 0 <= k < |PiecesOf(generated, baseline, existing)|
                          && r == PiecesOf(generated, baseline, existing)[k] && r.Region?
                          && r.base != r.generated && r.base != r.existing && r.generated != r.existing
  {
    hide *;
    PiecesAreTexts(generated, baseline, existing);
    PieceInPlace(generated, baseline, existing, labels, i);
    ConflictIsExact(generated, baseline, existing);
    var p := PiecesOf(generated, baseline, existing)[i];
    if p.Region? {
      PieceKeepsEdits(p, labels);
    } else {
      AnchorRenders(p.line, labels);
    }
  }

  lemma PiecesAreTexts(generated: string, baseline: string, existing: string)
    ensures var ps := PiecesOf(generated, baseline, existing);
            && Alternate(ps)
            && Join(Flatten(ps, Base)) == baseline
            && Join(Flatten(ps, Generated)) == generated
            && Join(Flatten(ps, Existing)) == existing
  {
    var s := Sides<string>.Of(LinesOf(baseline), LinesOf(generated), LinesOf(existing));
    ReadyAtStart(s);
    PartitionIsExact(s);
    PiecesCutAtAnchors(s, 0, 0, 0);
    LinesOfIsLines(generated);
    LinesOfIsLines(baseline);
    LinesOfIsLines(existing);
    hide LinesOf, Join, Flatten, Alternate, Pieces, Ready, IsLines;
  }

  lemma PieceInPlace(generated: string, baseline: string, existing: string, labels: DiffLabels, i: nat)
    requires i < |PiecesOf(generated, baseline, existing)|
    ensures var ps := PiecesOf(generated, baseline, existing);
            LoopContent(generated, baseline, existing, labels)
            == Join(Render(ps[..i], labels)) + Join(RenderPiece(ps[i], labels)) + Join(Render(ps[i + 1..], labels))
  {
    hide PiecesOf, Render, RenderPiece, Join;
    var ps := PiecesOf(generated, baseline, existing);
    RenderAround(ps, i, labels);
    JoinConcat(Render(ps[..i], labels) + RenderPiece(ps[i], labels), Render(ps[i + 1..], labels));
    JoinConcat(Render(ps[..i], labels), RenderPiece(ps[i], labels));
  }

  lemma ConflictIsExact(generated: string, baseline: string, existing: string)
    ensures LoopConflict(generated, baseline, existing) <==>
              exists k, r :: 0 <= k < |PiecesOf(generated, baseline, existing)|
                          && r == PiecesOf(generated, baseline, existing)[k] && r.Region?
                          && r.base != r.generated && r.base != r.existing && r.generated != r.existing
  {
    hide PiecesOf;
    var ps := PiecesOf(generated, baseline, existing);
    if LoopConflict(generated, baseline, existing) {
      var k :| 0 <= k < |ps| && Conflicts(ps[k]);
      var r := ps[k];
      assert r.Region? && r.base != r.generated && r.base != r.existing && r.generated != r.existing;
    }
    if k, r :| 0 <= k < |ps| && r == ps[k] && r.Region? && r.base != r.generated && r.base != r.existing && r.generated != r.existing {
      assert Conflicts(ps[k]);
    }
  }
}
