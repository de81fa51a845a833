/** Reading a merged text: what stands between its markers is, conflict by conflict, what
    each side made of the region, and everything else is merged. */
module MergeView {
  import opened Options
  import opened Text
  import opened Markers
  import opened Diff3
  import opened ThreeWay
  import opened MarkerLaws
  import opened DiffView

  // --- The reader ------------------------------------------------------------------------

  predicate IsMergeMark(line: string) {
    "<<<<<<< EXISTING:" <= line || line == "=======\n" || ">>>>>>> GENERATED:" <= line
  }

  /** Whose lines follow a marker line. */
  function Following(mark: string): Place {
    if "<<<<<<< EXISTING:" <= mark then Inside(Existing)
    else if mark == "=======\n" then Inside(Generated)
    else Outside
  }

  /** The text with every conflict resolved for one side. */
  function ReadMerged(lines: seq<string>, side: Side, at: Place): seq<string> {
    if lines == [] then []
    else if IsMergeMark(lines[0]) then ReadMerged(lines[1..], side, Following(lines[0]))
    else (if at == Outside || at == Inside(side) then [lines[0]] else []) + ReadMerged(lines[1..], side, at)
  }

  /** No line reads as a marker, not even once it is completed. */
  ghost predicate NoMergeMarks(lines: seq<string>) {
    forall i | 0 <= i < |lines| :: !IsMergeMark(lines[i]) && !IsMergeMark(Complete(lines[i]))
  }

  // --- What it finds -----------------------------------------------------------------------

  /** One side's text of a region both sides changed differently, or else what the region
      is merged to. */
  function Taken(p: Piece<string>, side: Side): seq<string> {
    if Conflicts(p) then Finished(SideOf(p, side)) else Resolved(p)
  }

  function TakeAll(ps: seq<Piece<string>>, side: Side): seq<string> {
    if ps == [] then [] else Taken(ps[0], side) + TakeAll(ps[1..], side)
  }

  lemma {:induction false} ReadUnmarked(lines: seq<string>, rest: seq<string>, side: Side, at: Place)
    requires forall i | 0 <= i < |lines| :: !IsMergeMark(lines[i])
    ensures ReadMerged(lines + rest, side, at)
         == (if at == Outside || at == Inside(side) then lines else []) + ReadMerged(rest, side, at)
  {
    if lines == [] {
      assert lines + rest == rest;
    } else {
      hide IsMergeMark;
      assert (lines + rest)[1..] == lines[1..] + rest;
      assert !IsMergeMark(lines[0]);
      ReadUnmarked(lines[1..], rest, side, at);
    }
  }

  lemma ReadMergeMark(mark: string, rest: seq<string>, side: Side, at: Place)
    requires IsMergeMark(mark)
    ensures ReadMerged([mark] + rest, side, at) == ReadMerged(rest, side, Following(mark))
  {
    assert ([mark] + rest)[1..] == rest;
  }

  lemma FinishedUnmarked(lines: seq<string>)
    requires NoMergeMarks(lines)
    ensures forall i | 0 <= i < |Finished(lines)| :: !IsMergeMark(Finished(lines)[i])
  {
    hide IsMergeMark;
    forall i | 0 <= i < |Finished(lines)| ensures !IsMergeMark(Finished(lines)[i]) {
      assert Finished(lines)[i] == lines[i] || Finished(lines)[i] == Complete(lines[i]);
    }
  }

  lemma MergeMarksAre(existing: string, generated: string)
    requires "EXISTING:" <= existing && "GENERATED:" <= generated
    ensures var open, close := MARK_START + existing + "\n", MARK_END + generated + "\n";
            && IsMergeMark(open) && Following(open) == Inside(Existing)
            && IsMergeMark(close) && Following(close) == Outside
    ensures IsMergeMark(MARK_MID) && Following(MARK_MID) == Inside(Generated)
  {
    PrefixUnder(MARK_START, "EXISTING:", existing, "\n");
    PrefixUnder(MARK_END, "GENERATED:", generated, "\n");
    assert MARK_START + "EXISTING:" == "<<<<<<< EXISTING:" && MARK_END + "GENERATED:" == ">>>>>>> GENERATED:";
    var open, close := MARK_START + existing + "\n", MARK_END + generated + "\n";
    assert open[0] == '<' && close[0] == '>';
    assert MARK_MID[0] == '=';
  }

  /** A conflict's lines give each side its own, and nothing of the other. */
  lemma ReadConflict(open: string, e: seq<string>, g: seq<string>, close: string, rest: seq<string>, side: Side)
    requires side != Base
    requires IsMergeMark(open) && Following(open) == Inside(Existing)
    requires IsMergeMark(MARK_MID) && Following(MARK_MID) == Inside(Generated)
    requires IsMergeMark(close) && Following(close) == Outside
    requires forall i | 0 <= i < |e| :: !IsMergeMark(e[i])
    requires forall i | 0 <= i < |g| :: !IsMergeMark(g[i])
    ensures ReadMerged([open] + e + [MARK_MID] + g + [close] + rest, side, Outside)
         == (if side == Existing then e else g) + ReadMerged(rest, side, Outside)
  {
    hide IsMergeMark, Following, ReadMerged;
    var third := [close] + rest;
    var second := [MARK_MID] + (g + third);
    assert [open] + e + [MARK_MID] + g + [close] + rest == [open] + (e + second);
    ReadMergeMark(open, e + second, side, Outside);
    ReadUnmarked(e, second, side, Inside(Existing));
    ReadMergeMark(MARK_MID, g + third, side, Inside(Existing));
    ReadUnmarked(g, third, side, Inside(Generated));
    ReadMergeMark(close, rest, side, Inside(Generated));
  }

  lemma ReadPiece(p: Piece<string>, rest: seq<string>, side: Side, labels: DiffLabels)
    requires side != Base && DefaultLabels(labels)
    requires NoMergeMarks(SideOf(p, Generated)) && NoMergeMarks(SideOf(p, Existing))
    ensures ReadMerged(PieceLines(p, labels) + rest, side, Outside) == Taken(p, side) + ReadMerged(rest, side, Outside)
  {
    if Conflicts(p) {
      MergeMarksAre(labels.existing, labels.generated);
      FinishedUnmarked(p.existing);
      FinishedUnmarked(p.generated);
      NoNewlineMark(labels);
      hide LinesOf, IsMergeMark, Following, ReadMerged, Finished;
      MarkerLines(MARK_START, labels.existing);
      MarkerLines(MARK_END, labels.generated);
      ReadConflict(MARK_START + labels.existing + "\n", Finished(p.existing), Finished(p.generated),
                   MARK_END + labels.generated + "\n", rest, side);
    } else {
      ReadUnmarked(Resolved(p), rest, side, Outside);
    }
  }

  lemma NoNewlineMark(labels: DiffLabels)
    requires DefaultLabels(labels)
    ensures NEWLINE !in MARK_START + labels.existing && NEWLINE !in MARK_END + labels.generated
  {
  }

  lemma {:induction false} ReadPieces(ps: seq<Piece<string>>, side: Side, labels: DiffLabels)
    requires side != Base && DefaultLabels(labels)
    requires NoMergeMarks(Flatten(ps, Generated)) && NoMergeMarks(Flatten(ps, Existing))
    ensures ReadMerged(MergedLines(ps, labels), side, Outside) == TakeAll(ps, side)
  {
    if ps != [] {
      hide PieceLines, Taken, DefaultLabels, ReadMerged;
      NoMergeMarksApart(SideOf(ps[0], Generated), Flatten(ps[1..], Generated));
      NoMergeMarksApart(SideOf(ps[0], Existing), Flatten(ps[1..], Existing));
      hide NoMergeMarks;
      ReadPieces(ps[1..], side, labels);
      ReadPiece(ps[0], MergedLines(ps[1..], labels), side, labels);
    }
  }

  lemma NoMergeMarksApart(a: seq<string>, b: seq<string>)
    requires NoMergeMarks(a + b)
    ensures NoMergeMarks(a) && NoMergeMarks(b)
  {
    hide IsMergeMark;
    assert forall i | 0 <= i < |a| :: (a + b)[i] == a[i];
    assert forall i | 0 <= i < |b| :: (a + b)[|a| + i] == b[i];
  }

  /** With default labels and no marker-like line in either text, resolving every
      conflict of a merged text for one side leaves, region by region, that side's lines
      where both changed differently, and what the merge resolved elsewhere. */
  lemma MergeIsReadable(generated: string, baseline: string, existing: string, spec: DiffSpec, side: Side)
    requires side != Base
    requires spec.labels == None && NEWLINE !in spec.whenStamp + spec.lastStamp + spec.kind
    requires NoMergeMarks(LinesOf(generated)) && NoMergeMarks(LinesOf(existing))
    ensures var merged := LoopContent(generated, baseline, existing, LabelsOf(spec, "merge"));
            ReadMerged(LinesOf(merged), side, Outside) == TakeAll(PiecesOf(generated, baseline, existing), side)
  {
    var labels := LabelsOf(spec, "merge");
    MergeLabelsAreDefault(spec);
    PartitionIsExact(Sides<string>.Of(LinesOf(baseline), LinesOf(generated), LinesOf(existing)));
    var ps := PiecesOf(generated, baseline, existing);
    hide LinesOf, LabelsOf, DefaultLabels, NoMergeMarks, ReadMerged, LoopContent, Pieces, Flatten, MergedLines;
    MarkersAreLines(generated, baseline, existing, labels);
    ReadPieces(ps, side, labels);
  }

  lemma MergeLabelsAreDefault(spec: DiffSpec)
    requires spec.labels == None && NEWLINE !in spec.whenStamp + spec.lastStamp + spec.kind
    ensures DefaultLabels(LabelsOf(spec, "merge"))
  {
    var kinded := spec.(kind := if spec.kind == "" then "merge" else spec.kind);
    assert LabelsOf(kinded, "diff") == LabelsOf(spec, "merge");
    NoneIn(NEWLINE, spec.whenStamp, spec.lastStamp, spec.kind);
    DefaultLabelsOf(kinded);
  }

  // --- Getting one side back -----------------------------------------------------------------

  /** Wherever this side is still the baseline, so is the other. */
  ghost predicate ChangesAll(ps: seq<Piece<string>>, side: Side) {
    forall i | 0 <= i < |ps| && ps[i].Region? && SideOf(ps[i], side) == ps[i].base :: ps[i].generated == ps[i].existing
  }

  lemma FinishedText(lines: seq<string>)
    requires IsLines(lines)
    ensures |Finished(lines)| == |lines|
    ensures AllComplete(lines) ==> Finished(lines) == lines
    ensures SameUpToFinalNewline(Join(Finished(lines)), Join(lines))
  {
    if !(lines == [] || EndsWithNewline(lines[|lines| - 1])) {
      hide Join;
      var init, last := lines[..|lines| - 1], lines[|lines| - 1];
      assert lines == init + [last];
      JoinConcat(init, [last]);
      JoinConcat(init, [last + "\n"]);
      JoinOne(last);
      JoinOne(last + "\n");
    }
  }

  /** One piece's own lines, in front of what the later pieces give. */
  lemma TakenText(p: Piece<string>, side: Side, rest: seq<string>, restRead: seq<string>)
    requires side != Base && IsLines(SideOf(p, side))
    requires p.Region? && SideOf(p, side) == p.base ==> p.generated == p.existing
    requires SameUpToFinalNewline(Join(restRead), Join(rest)) && |restRead| == |rest|
    requires rest != [] ==> AllComplete(SideOf(p, side))
    ensures SameUpToFinalNewline(Join(Taken(p, side) + restRead), Join(SideOf(p, side) + rest))
    ensures |Taken(p, side) + restRead| == |SideOf(p, side) + rest|
  {
    var own := SideOf(p, side);
    FinishedText(own);
    assert Taken(p, side) == own || Taken(p, side) == Finished(own);
    hide *;
    InFrontText(own, Taken(p, side), rest, restRead);
  }

  lemma InFrontText(own: seq<string>, taken: seq<string>, rest: seq<string>, restRead: seq<string>)
    requires |taken| == |own| && |restRead| == |rest|
    requires if rest == [] then SameUpToFinalNewline(Join(taken), Join(own)) else taken == own
    requires SameUpToFinalNewline(Join(restRead), Join(rest))
    ensures SameUpToFinalNewline(Join(taken + restRead), Join(own + rest))
    ensures |taken + restRead| == |own + rest|
  {
    hide Join, SameUpToFinalNewline;
    if rest == [] {
      assert own + rest == own && taken + restRead == taken;
    } else {
      JoinConcat(own, rest);
      JoinConcat(own, restRead);
      SameBehind(Join(own), Join(restRead), Join(rest));
    }
  }

  lemma SameBehind(front: string, read: string, text: string)
    requires SameUpToFinalNewline(read, text)
    ensures SameUpToFinalNewline(front + read, front + text)
  {
    assert front + (text + "\n") == front + text + "\n";
  }

  lemma {:induction false} TakeAllText(ps: seq<Piece<string>>, side: Side)
    requires side != Base && IsLines(Flatten(ps, side)) && ChangesAll(ps, side)
    ensures SameUpToFinalNewline(Join(TakeAll(ps, side)), Join(Flatten(ps, side)))
    ensures |TakeAll(ps, side)| == |Flatten(ps, side)|
  {
    if ps != [] {
      var own, rest := SideOf(ps[0], side), Flatten(ps[1..], side);
      assert Flatten(ps, side) == own + rest;
      LinesApart(own, rest);
      assert forall i | 0 <= i < |ps[1..]| :: ps[1..][i] == ps[i + 1];
      assert ps[0].Region? && own == ps[0].base ==> ps[0].generated == ps[0].existing;
      assert rest != [] ==> AllComplete(own);
      hide Join, Taken, IsLines, SameUpToFinalNewline, AllComplete;
      TakeAllText(ps[1..], side);
      TakenText(ps[0], side, rest, TakeAll(ps[1..], side));
    }
  }

  /** So a side that changed every region the other one changed comes back whole, up to
      one final newline, when all conflicts are resolved for it. */
  lemma ResolvedForOneSide(generated: string, baseline: string, existing: string, spec: DiffSpec, side: Side)
    requires side != Base
    requires spec.labels == None && NEWLINE !in spec.whenStamp + spec.lastStamp + spec.kind
    requires NoMergeMarks(LinesOf(generated)) && NoMergeMarks(LinesOf(existing))
    requires ChangesAll(PiecesOf(generated, baseline, existing), side)
    ensures var merged := LoopContent(generated, baseline, existing, LabelsOf(spec, "merge"));
            SameUpToFinalNewline(Join(ReadMerged(LinesOf(merged), side, Outside)),
                                 if side == Generated then generated else existing)
  {
    LinesOfIsLines(generated);
    LinesOfIsLines(existing);
    PartitionIsExact(Sides<string>.Of(LinesOf(baseline), LinesOf(generated), LinesOf(existing)));
    var ps := PiecesOf(generated, baseline, existing);
    hide LinesOf, LabelsOf, NoMergeMarks, ReadMerged, LoopContent, Pieces, Flatten, ChangesAll, TakeAll, IsLines,
         SameUpToFinalNewline, Join;
    MergeIsReadable(generated, baseline, existing, spec, side);
    TakeAllText(ps, side);
  }
}
