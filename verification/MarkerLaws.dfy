/** Where the merge's markers stand: each is a line of its own, so a conflicted result
    is always recognised and never merged into again. */
module MarkerLaws {
  import opened Text
  import opened Diff3
  import opened Markers
  import opened ThreeWay

  /** Three texts given as their lines. */
  ghost predicate OfLines(s: Sides<string>) {
    IsLines(s.base) && IsLines(s.generated) && IsLines(s.existing)
  }

  /** Nothing is left behind the cursors on any side. */
  predicate AtEnd(s: Sides<string>, bi: nat, gi: nat, ei: nat) {
    bi >= |s.base| && gi >= |s.generated| && ei >= |s.existing|
  }

  /** An anchor line without a newline ends all three texts. */
  lemma UnfinishedAnchorIsLast(s: Sides<string>, b: nat, g: nat, e: nat)
    requires OfLines(s) && b < |s.base| && g < |s.generated| && e < |s.existing|
    requires s.base[b] == s.generated[g] == s.existing[e]
    ensures EndsWithNewline(s.base[b]) || AtEnd(s, b + 1, g + 1, e + 1)
  {
  }

  /** The first conflict's opening marker stands at the start of a line. */
  lemma {:induction false} ConflictIsMarked(s: Sides<string>, bi: nat, gi: nat, ei: nat, before: string, labels: DiffLabels)
    requires s.Fits() && Ready(s, bi, gi, ei) && OfLines(s)
    requires AnyConflict(Pieces(s, bi, gi, ei))
    requires before == "" || EndsWithNewline(before) || AtEnd(s, bi, gi, ei)
    ensures HasLine(before + Join(Render(Pieces(s, bi, gi, ei), labels)), MARK_START + labels.existing + "\n")
    decreases |s.base| - bi
  {
    hide Pieces, Ready, Render, AnyConflict, Join, HasLine, IsLines, RenderPiece;
    PiecesStep(s, bi, gi, ei);
    var next := NextAnchor(s.gMap, s.eMap, bi);
    var r := FirstRegion(s, bi, gi, ei);
    RenderStep(r, r, [], labels);
    if next == |s.base| {
      ReadyAtNext(s, bi, gi, ei, next);
      EmptyRegion(labels);
      assert AtEnd(s, bi, gi, ei) ==> r == Region([], [], []);
      OpenedConflict(r, before, "", labels);
      assert before + Join(RenderPiece(r, labels)) + "" == before + Join(RenderPiece(r, labels));
    } else {
      var g, e := s.gMap[next], s.eMap[next];
      var line, rest := s.base[next], Pieces(s, next + 1, g + 1, e + 1);
      RenderStep(r, Anchor(line), rest, labels);
      AnchorRenders(line, labels);
      JoinConcat(RenderPiece(r, labels), [line] + Render(rest, labels));
      JoinCons(line, Render(rest, labels));
      var head, tail := Join(RenderPiece(r, labels)), line + Join(Render(rest, labels));
      assert before + (head + tail) == before + head + tail;
      if Conflicts(r) {
        OpenedConflict(r, before, tail, labels);
      } else {
        UnfinishedAnchorIsLast(s, next, g, e);
        ConflictIsMarked(s, next + 1, g + 1, e + 1, before + head + line, labels);
        assert before + head + line + Join(Render(rest, labels)) == before + head + tail;
      }
    }
  }

  lemma OpenedConflict(r: Piece<string>, before: string, after: string, labels: DiffLabels)
    requires Conflicts(r) && (before == "" || EndsWithNewline(before))
    ensures HasLine(before + Join(RenderPiece(r, labels)) + after, MARK_START + labels.existing + "\n")
  {
    hide HasLine, Join;
    var mark, block := MARK_START + labels.existing + "\n", ConflictBlock(r.generated, r.existing, labels);
    assert block == [mark] + block[1..];
    JoinCons(mark, block[1..]);
    HasLineAt(before, mark, Join(block[1..]) + after);
    assert before + mark + (Join(block[1..]) + after) == before + Join(block) + after;
  }

  /** A marker written under any labels is recognised under the explicit ones. */
  lemma MarkIsRecognised(text: string, spec: DiffSpec, kind: string)
    requires HasLine(text, MARK_START + LabelsOf(spec, kind).existing + "\n")
    ensures HasConflicts(text, ExplicitLabels(spec))
  {
    hide HasLine;
    if ExplicitLabels(spec).existing == "" {
      var name := if spec.kind == "" then kind else spec.kind;
      var rest := " " + spec.lastStamp + "/" + name + "\n";
      assert MARK_START + LabelsOf(spec, kind).existing + "\n" == MARK_START + LABEL_EXISTING + ":" + rest;
      HasLinePrefix(text, MARK_START + LABEL_EXISTING + ":", rest);
    }
  }

  lemma LoopConflictIsMarked(generated: string, baseline: string, existing: string, labels: DiffLabels)
    requires LoopConflict(generated, baseline, existing)
    ensures HasLine(LoopContent(generated, baseline, existing, labels), MARK_START + labels.existing + "\n")
  {
    hide Pieces, Ready, Render, AnyConflict, Join, LinesOf, HasLine, IsLines;
    LinesOfIsLines(generated);
    LinesOfIsLines(baseline);
    LinesOfIsLines(existing);
    var s := Sides<string>.Of(LinesOf(baseline), LinesOf(generated), LinesOf(existing));
    ReadyAtStart(s);
    ConflictIsMarked(s, 0, 0, 0, "", labels);
    assert "" + Join(Render(AllPieces(s), labels)) == Join(Render(AllPieces(s), labels));
  }

  /** A conflicted merge is recognised as unresolved under the same labels. */
  lemma ConflictedMergeIsRecognised(generated: string, baseline: string, existing: string, spec: DiffSpec)
    ensures var r := MergeOf(generated, baseline, existing, spec);
            r.conflict ==> HasConflicts(r.content, ExplicitLabels(spec))
  {
    hide LoopContent, LoopConflict, HasConflicts, HasLine, LabelsOf;
    if MergeOf(generated, baseline, existing, spec).conflict {
      LoopConflictIsMarked(generated, baseline, existing, LabelsOf(spec, "merge"));
      MarkIsRecognised(LoopContent(generated, baseline, existing, LabelsOf(spec, "merge")), spec, "merge");
    }
  }

  /** Markers never nest: whatever is merged into a conflicted result later, under the
      same labels, leaves it as it is, unless it is that generate or the baseline. */
  lemma MarkersNeverNest(generated: string, baseline: string, existing: string, spec: DiffSpec,
                         laterGenerated: string, laterBaseline: string, laterSpec: DiffSpec)
    requires laterSpec.labels == spec.labels
    ensures var r := MergeOf(generated, baseline, existing, spec);
            r.conflict ==>
              MergeOf(laterGenerated, laterBaseline, r.content, laterSpec)
              == if laterGenerated == r.content then MergeResult(r.content, false, Same)
                 else if laterBaseline == r.content then MergeResult(laterGenerated, false, Clean)
                 else MergeResult(r.content, false, Unresolved)
  {
    ConflictedMergeIsRecognised(generated, baseline, existing, spec);
    hide HasConflicts, LoopContent, LoopConflict;
  }

  // --- The lines of a merged text ------------------------------------------------------

  /** One side of a conflict, its last line completed with a newline. */
  function Finished(side: seq<string>): seq<string> {
    if side == [] || EndsWithNewline(side[|side| - 1]) then side
    else side[..|side| - 1] + [side[|side| - 1] + "\n"]
  }

  ghost function PieceLines(p: Piece<string>, labels: DiffLabels): seq<string> {
    if Conflicts(p) then
      LinesOf(MARK_START + labels.existing + "\n") + Finished(p.existing)
      + [MARK_MID] + Finished(p.generated)
      + LinesOf(MARK_END + labels.generated + "\n")
    else Resolved(p)
  }

  /** The lines a merge is made of: kept lines, and for each conflict its markers around
      the two sides. A marker is one line, unless its label has newlines of its own. */
  ghost function MergedLines(ps: seq<Piece<string>>, labels: DiffLabels): seq<string> {
    if ps == [] then [] else PieceLines(ps[0], labels) + MergedLines(ps[1..], labels)
  }

  /** A marker's lines: complete ones, the first of which starts the marker; and one
      only when the label has no newline. */
  lemma MarkerLines(mark: string, name: string)
    ensures var lines := LinesOf(mark + name + "\n");
            && CompleteLines(lines) && Join(lines) == mark + name + "\n" && lines != []
            && (NEWLINE !in mark + name ==> lines == [mark + name + "\n"])
  {
    var text := mark + name + "\n";
    LinesOfIsLines(text);
    hide LinesOf, Join;
    if LinesOf(text) == [] {
      JoinNone();
    }
    CompleteText(text);
    if NEWLINE !in mark + name {
      EmptyHasNoLines();
      assert IsLine(text);
      TakeLine(text, "");
      assert text + "" == text;
    }
  }

  lemma MergedStep(r: Piece<string>, a: Piece<string>, rest: seq<Piece<string>>, labels: DiffLabels)
    ensures MergedLines([r, a] + rest, labels) == PieceLines(r, labels) + (PieceLines(a, labels) + MergedLines(rest, labels))
    ensures MergedLines([r], labels) == PieceLines(r, labels)
  {
    var ps := [r, a] + rest;
    assert ps[1..] == [a] + rest && ps[1..][1..] == rest && [r][1..] == [];
  }

  lemma FinishedJoins(side: seq<string>)
    ensures Join(Finished(side)) == Join(Closed(side))
  {
    if side != [] && !EndsWithNewline(side[|side| - 1]) {
      var init, last := side[..|side| - 1], side[|side| - 1];
      assert side == init + [last];
      JoinConcat(init, [last + "\n"]);
      JoinConcat(init, [last]);
      JoinConcat(side, ["\n"]);
      JoinOne(last + "\n");
      JoinOne(last);
      JoinOne("\n");
    } else {
      assert side + [] == side;
    }
  }

  lemma PieceLinesJoin(p: Piece<string>, labels: DiffLabels)
    ensures Join(PieceLines(p, labels)) == Join(RenderPiece(p, labels))
  {
    hide Join, Closed, Finished, LinesOf;
    if Conflicts(p) {
      FinishedJoins(p.existing);
      FinishedJoins(p.generated);
      var start, end := MARK_START + labels.existing + "\n", MARK_END + labels.generated + "\n";
      MarkerLines(MARK_START, labels.existing);
      MarkerLines(MARK_END, labels.generated);
      JoinOne(start);
      JoinOne(end);
      BlockJoins([start], Closed(p.existing), [MARK_MID], Closed(p.generated), [end]);
      BlockJoins(LinesOf(start), Finished(p.existing), [MARK_MID], Finished(p.generated), LinesOf(end));
    }
  }

  lemma BlockJoins(a: seq<string>, b: seq<string>, c: seq<string>, d: seq<string>, e: seq<string>)
    ensures Join(a + b + c + d + e) == Join(a) + Join(b) + Join(c) + Join(d) + Join(e)
  {
    JoinConcat(a + b + c + d, e);
    JoinConcat(a + b + c, d);
    JoinConcat(a + b, c);
    JoinConcat(a, b);
  }

  lemma {:induction false} MergedLinesJoin(ps: seq<Piece<string>>, labels: DiffLabels)
    ensures Join(MergedLines(ps, labels)) == Join(Render(ps, labels))
  {
    hide Join, PieceLines, RenderPiece;
    if ps != [] {
      MergedLinesJoin(ps[1..], labels);
      PieceLinesJoin(ps[0], labels);
      JoinConcat(PieceLines(ps[0], labels), MergedLines(ps[1..], labels));
      JoinConcat(RenderPiece(ps[0], labels), Render(ps[1..], labels));
    }
  }

  /** Complete lines may be followed by anything. */
  ghost predicate CompleteLines(lines: seq<string>) {
    IsLines(lines) && (lines == [] || EndsWithNewline(lines[|lines| - 1]))
  }

  lemma SliceIsLines(lines: seq<string>, i: nat, j: nat)
    requires IsLines(lines) && i <= j <= |lines|
    ensures IsLines(lines[i..j])
    ensures j < |lines| ==> CompleteLines(lines[i..j])
  {
  }

  lemma FinishedIsComplete(side: seq<string>)
    requires IsLines(side)
    ensures CompleteLines(Finished(side))
  {
    if side != [] && !EndsWithNewline(side[|side| - 1]) {
      var last := side[|side| - 1];
      assert IsLine(last) && last[|last| - 1] != NEWLINE;
      assert IsLine(last + "\n");
    }
  }

  lemma ConflictLinesAreComplete(p: Piece<string>, labels: DiffLabels)
    requires Conflicts(p) && IsLines(p.existing) && IsLines(p.generated)
    ensures CompleteLines(PieceLines(p, labels))
  {
    FinishedIsComplete(p.existing);
    FinishedIsComplete(p.generated);
    MarkerLines(MARK_START, labels.existing);
    MarkerLines(MARK_END, labels.generated);
    hide Finished, LinesOf;
    var open, close := LinesOf(MARK_START + labels.existing + "\n"), LinesOf(MARK_END + labels.generated + "\n");
    var e, g := Finished(p.existing), Finished(p.generated);
    assert CompleteLines([MARK_MID]);
    hide CompleteLines;
    CompleteConcat(open, e);
    CompleteConcat(open + e, [MARK_MID]);
    CompleteConcat(open + e + [MARK_MID], g);
    CompleteConcat(open + e + [MARK_MID] + g, close);
  }

  lemma CompleteConcat(a: seq<string>, b: seq<string>)
    requires CompleteLines(a) && CompleteLines(b)
    ensures CompleteLines(a + b)
  {
  }

  lemma RegionLines(r: Piece<string>, labels: DiffLabels)
    requires r.Region? && IsLines(r.generated) && IsLines(r.existing)
    ensures IsLines(PieceLines(r, labels))
    ensures CompleteLines(r.generated) && CompleteLines(r.existing) ==> CompleteLines(PieceLines(r, labels))
  {
    if Conflicts(r) {
      ConflictLinesAreComplete(r, labels);
    }
  }

  lemma EmptyRegionLines(labels: DiffLabels)
    ensures PieceLines(Piece<string>.Region([], [], []), labels) == []
  {
  }

  lemma AnchorLine(base: seq<string>, b: nat, rest: seq<string>, labels: DiffLabels)
    requires IsLines(base) && b < |base| && IsLines(rest)
    requires EndsWithNewline(base[b]) || rest == []
    ensures IsLines(PieceLines(Anchor(base[b]), labels) + rest)
  {
  }

  lemma CompleteThenLines(a: seq<string>, b: seq<string>)
    requires CompleteLines(a) && IsLines(b)
    ensures IsLines(a + b)
  {
  }

  lemma {:induction false} MergedIsLines(s: Sides<string>, bi: nat, gi: nat, ei: nat, labels: DiffLabels)
    requires s.Fits() && Ready(s, bi, gi, ei) && OfLines(s)
    ensures IsLines(MergedLines(Pieces(s, bi, gi, ei), labels))
    ensures AtEnd(s, bi, gi, ei) ==> MergedLines(Pieces(s, bi, gi, ei), labels) == []
    decreases |s.base| - bi
  {
    hide Pieces, Ready, MergedLines, PieceLines, IsLines, CompleteLines;
    PiecesStep(s, bi, gi, ei);
    var next := NextAnchor(s.gMap, s.eMap, bi);
    var r := FirstRegion(s, bi, gi, ei);
    MergedStep(r, r, [], labels);
    if next == |s.base| {
      ReadyAtNext(s, bi, gi, ei, next);
      SliceIsLines(s.generated, gi, |s.generated|);
      SliceIsLines(s.existing, ei, |s.existing|);
      assert s.generated[gi..|s.generated|] == s.generated[gi..] && s.existing[ei..|s.existing|] == s.existing[ei..];
      RegionLines(r, labels);
      EmptyRegionLines(labels);
      assert AtEnd(s, bi, gi, ei) ==> r == Region([], [], []);
    } else {
      var g, e := s.gMap[next], s.eMap[next];
      var line, rest := s.base[next], Pieces(s, next + 1, g + 1, e + 1);
      SliceIsLines(s.generated, gi, g);
      SliceIsLines(s.existing, ei, e);
      RegionLines(r, labels);
      MergedIsLines(s, next + 1, g + 1, e + 1, labels);
      MergedStep(r, Anchor(line), rest, labels);
      UnfinishedAnchorIsLast(s, next, g, e);
      AnchorLine(s.base, next, MergedLines(rest, labels), labels);
      CompleteThenLines(PieceLines(r, labels), PieceLines(Anchor(line), labels) + MergedLines(rest, labels));
    }
  }

  /** Splitting a merged text gives back the kept lines and, for each conflict, its
      markers as lines of their own. */
  lemma MarkersAreLines(generated: string, baseline: string, existing: string, labels: DiffLabels)
    ensures LinesOf(LoopContent(generated, baseline, existing, labels))
         == MergedLines(PiecesOf(generated, baseline, existing), labels)
  {
    LinesOfIsLines(generated);
    LinesOfIsLines(baseline);
    LinesOfIsLines(existing);
    var s := Sides<string>.Of(LinesOf(baseline), LinesOf(generated), LinesOf(existing));
    ReadyAtStart(s);
    hide Pieces, Ready, Render, Join, LinesOf, IsLines, MergedLines;
    MergedIsLines(s, 0, 0, 0, labels);
    MergedLinesJoin(AllPieces(s), labels);
    LinesOfJoin(MergedLines(AllPieces(s), labels));
  }
}
