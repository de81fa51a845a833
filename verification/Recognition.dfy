/** Which texts count as unresolved: exactly those in which some line starts with a
    marker, whichever of the markers is left; and which side each label speaks for. */
module Recognition {
  import opened Options
  import opened Text
  import opened Markers
  import opened LcsSpec
  import opened Diff3
  import opened TwoWay
  import opened DiffView

  // --- Starts of lines -----------------------------------------------------------------

  /** Splitting at a newline splits the lines. */
  lemma LinesConcat(a: string, b: string)
    requires a == "" || EndsWithNewline(a)
    ensures LinesOf(a + b) == LinesOf(a) + LinesOf(b)
  {
    LinesOfIsLines(a);
    LinesOfIsLines(b);
    hide LinesOf, Join;
    var la, lb := LinesOf(a), LinesOf(b);
    JoinConcat(la, lb);
    if la != [] {
      LastLineEnds(la);
    }
    assert IsLines(la + lb);
    LinesOfJoin(la + lb);
  }

  lemma LastLineEnds(lines: seq<string>)
    requires IsLines(lines) && lines != []
    ensures Join(lines) != "" && EndsWithNewline(Join(lines)) == EndsWithNewline(lines[|lines| - 1])
  {
    var init, last := lines[..|lines| - 1], lines[|lines| - 1];
    assert IsLine(last);
    hide Join, IsLines, IsLine;
    assert lines == init + [last];
    JoinConcat(init, [last]);
    JoinOne(last);
    SameEnd(Join(init), last);
  }

  lemma SameEnd(a: string, b: string)
    requires b != ""
    ensures a + b != "" && EndsWithNewline(a + b) == EndsWithNewline(b)
  {
  }

  /** A mark behind a newline starts one of the text's lines. */
  lemma MarkStartsLine(text: string, mark: string, p: nat)
    requires mark != "" && p <= |text| && OccursAt(text, [NEWLINE] + mark, p)
    ensures exists i :: 0 <= i < |LinesOf(text)| && mark <= Join(LinesOf(text)[i..])
  {
    var before, rest := text[..p + 1], text[p + 1..];
    assert text[p..p + 1 + |mark|] == [NEWLINE] + mark;
    assert text == before + rest && before[p] == text[p] == NEWLINE;
    assert text[p..p + 1 + |mark|][1..] == rest[..|mark|];
    assert mark <= rest;
    hide LinesOf, Join;
    LinesConcat(before, rest);
    LinesOfIsLines(rest);
    var n := |LinesOf(before)|;
    assert LinesOf(text)[n..] == LinesOf(rest);
    if LinesOf(rest) == [] {
      JoinNone();
    }
  }

  /** A mark at the start of one of the text's lines is found. */
  lemma MarkIsFound(text: string, mark: string, i: nat)
    requires i < |LinesOf(text)| && mark <= Join(LinesOf(text)[i..])
    ensures HasLine(text, mark)
  {
    LinesOfIsLines(text);
    hide LinesOf, Join;
    var lines := LinesOf(text);
    var before, rest := Join(lines[..i]), Join(lines[i..]);
    assert lines == lines[..i] + lines[i..];
    JoinConcat(lines[..i], lines[i..]);
    if i > 0 {
      LastLineEnds(lines[..i]);
      assert EndsWithNewline(lines[i - 1]);
    } else {
      JoinNone();
      assert lines[..0] == [];
    }
    assert rest == mark + rest[|mark|..] && before + mark + rest[|mark|..] == text;
    HasLineAt(before, mark, rest[|mark|..]);
  }

  /** A mark starts a line exactly when it is found from some line of the text on. */
  lemma HasLineIs(text: string, mark: string)
    requires mark != ""
    ensures HasLine(text, mark) <==> exists i :: 0 <= i < |LinesOf(text)| && mark <= Join(LinesOf(text)[i..])
  {
    LinesOfIsLines(text);
    hide LinesOf, Join, OccursAt;
    var lines := LinesOf(text);
    if mark <= text {
      assert lines[0..] == lines;
      if lines == [] {
        JoinNone();
      }
    } else if HasLine(text, mark) {
      var p :| 0 <= p <= |text| && OccursAt(text, [NEWLINE] + mark, p);
      MarkStartsLine(text, mark, p);
    }
    if i :| 0 <= i < |lines| && mark <= Join(lines[i..]) {
      MarkIsFound(text, mark, i);
    }
  }

  // --- Markers -----------------------------------------------------------------------------

  /** What the start of a marker line looks like: opening or closing, either side, under
      a default label or an explicit one. */
  function Marks(custom: DiffLabels): set<string> {
    {"<<<<<<< EXISTING:", ">>>>>>> EXISTING:", "<<<<<<< GENERATED:", ">>>>>>> GENERATED:"}
    + NamedMarks(custom.existing) + NamedMarks(custom.generated)
  }

  function NamedMarks(name: string): set<string> {
    if name == "" then {} else {"<<<<<<< " + name + "\n", ">>>>>>> " + name + "\n"}
  }

  lemma MarksAre(text: string, custom: DiffLabels)
    ensures HasConflicts(text, custom) <==> exists mark :: mark in Marks(custom) && HasLine(text, mark)
  {
    hide HasLine;
    assert MARK_START + LABEL_EXISTING + ":" == "<<<<<<< EXISTING:";
    assert MARK_END + LABEL_EXISTING + ":" == ">>>>>>> EXISTING:";
    assert MARK_START + LABEL_GENERATED + ":" == "<<<<<<< GENERATED:";
    assert MARK_END + LABEL_GENERATED + ":" == ">>>>>>> GENERATED:";
  }

  /** A text is recognised as unresolved exactly when from the start of some line on it
      reads as one of the markers, whichever one. */
  lemma RecognisedExactly(text: string, custom: DiffLabels)
    ensures HasConflicts(text, custom) <==>
      exists i, mark :: 0 <= i < |LinesOf(text)| && mark in Marks(custom) && mark <= Join(LinesOf(text)[i..])
  {
    MarksAre(text, custom);
    hide HasConflicts, HasLine, Join, LinesOf;
    forall mark | mark in Marks(custom)
      ensures HasLine(text, mark) <==> exists i :: 0 <= i < |LinesOf(text)| && mark <= Join(LinesOf(text)[i..])
    {
      assert mark != "";
      HasLineIs(text, mark);
    }
  }

  /** A mark without a newline is found from a line on exactly when that line starts
      with it. */
  lemma MarkInLine(lines: seq<string>, i: nat, mark: string)
    requires IsLines(lines) && i < |lines| && NEWLINE !in mark
    ensures mark <= Join(lines[i..]) <==> mark <= lines[i]
  {
    hide Join;
    var line, rest := lines[i], lines[i + 1..];
    assert lines[i..] == [line] + rest;
    JoinCons(line, rest);
    if rest == [] {
      JoinNone();
      assert line + "" == line;
    } else {
      assert EndsWithNewline(line);
      MarkInFront(line, Join(rest), mark);
    }
  }

  lemma MarkInFront(line: string, rest: string, mark: string)
    requires EndsWithNewline(line) && NEWLINE !in mark
    ensures mark <= line + rest <==> mark <= line
  {
    var text := line + rest;
    NewlineComes(line, rest);
    if mark <= text {
      assert mark == text[..|mark|];
      assert |mark| < |line| && text[..|mark|] == line[..|mark|];
    }
  }

  lemma NewlineComes(line: string, rest: string)
    requires EndsWithNewline(line)
    ensures forall n | |line| <= n <= |line + rest| :: NEWLINE in (line + rest)[..n]
  {
    forall n | |line| <= n <= |line + rest| ensures NEWLINE in (line + rest)[..n] {
      assert (line + rest)[..n][|line| - 1] == NEWLINE;
    }
  }

  /** Without explicit labels, a text is unresolved exactly when some line of it starts
      with one of the four default markers. */
  lemma DefaultRecognition(text: string)
    ensures HasConflicts(text, DiffLabels("", "")) <==>
      exists i, mark :: 0 <= i < |LinesOf(text)| && mark in Marks(DiffLabels("", "")) && mark <= LinesOf(text)[i]
    ensures Marks(DiffLabels("", ""))
         == {"<<<<<<< EXISTING:", ">>>>>>> EXISTING:", "<<<<<<< GENERATED:", ">>>>>>> GENERATED:"}
  {
    RecognisedExactly(text, DiffLabels("", ""));
    LinesOfIsLines(text);
    DefaultMarksAre();
    var lines, marks := LinesOf(text), Marks(DiffLabels("", ""));
    hide *;
    if i, mark :| 0 <= i < |lines| && mark in marks && mark <= Join(lines[i..]) {
      MarkInLine(lines, i, mark);
      assert mark <= lines[i];
    }
    if i, mark :| 0 <= i < |lines| && mark in marks && mark <= lines[i] {
      MarkInLine(lines, i, mark);
      assert mark <= Join(lines[i..]);
    }
  }

  lemma DefaultMarksAre()
    ensures Marks(DiffLabels("", ""))
         == {"<<<<<<< EXISTING:", ">>>>>>> EXISTING:", "<<<<<<< GENERATED:", ">>>>>>> GENERATED:"}
    ensures forall mark | mark in Marks(DiffLabels("", "")) :: NEWLINE !in mark
  {
  }

  // --- Labels -----------------------------------------------------------------------------------

  /** An explicit label stands on its own side, and the other side's label stays. */
  lemma ExplicitLabelIsOwn(spec: DiffSpec, kind: string, generated: string, existing: string)
    ensures var labels := LabelsOf(spec.(labels := Some(DiffLabels(generated, existing))), kind);
            var default := LabelsOf(spec.(labels := None), kind);
            && labels.generated == (if generated != "" then generated else default.generated)
            && labels.existing == (if existing != "" then existing else default.existing)
  {
  }

  /** The generated side carries this run's clock, the existing side the last run's; each
      moves its own label only, and tells two clocks apart. */
  lemma ClocksAreOwn(spec: DiffSpec, kind: string, one: string, two: string)
    requires spec.labels == None
    ensures var a, b := LabelsOf(spec.(whenStamp := one), kind), LabelsOf(spec.(whenStamp := two), kind);
            a.existing == b.existing && (a.generated == b.generated <==> one == two)
    ensures var a, b := LabelsOf(spec.(lastStamp := one), kind), LabelsOf(spec.(lastStamp := two), kind);
            a.generated == b.generated && (a.existing == b.existing <==> one == two)
  {
    var name := if spec.kind == "" then kind else spec.kind;
    SameMiddle(LABEL_GENERATED + ": ", one, two, "/" + name);
    SameMiddle(LABEL_EXISTING + ": ", one, two, "/" + name);
    assert LABEL_GENERATED + ": " + one + "/" + name == LABEL_GENERATED + ": " + one + ("/" + name);
    assert LABEL_GENERATED + ": " + two + "/" + name == LABEL_GENERATED + ": " + two + ("/" + name);
    assert LABEL_EXISTING + ": " + one + "/" + name == LABEL_EXISTING + ": " + one + ("/" + name);
    assert LABEL_EXISTING + ": " + two + "/" + name == LABEL_EXISTING + ": " + two + ("/" + name);
  }

  lemma SameMiddle(before: string, one: string, two: string, after: string)
    ensures before + one + after == before + two + after <==> one == two
  {
    var a, b := before + one + after, before + two + after;
    if a == b {
      assert |one| == |two|;
      assert one == a[|before|..|before| + |one|] && two == b[|before|..|before| + |two|];
    }
  }

  /** Default labels name their side, and the default kind is used when none is given. */
  lemma LabelsNameTheirSide(spec: DiffSpec, kind: string)
    ensures spec.labels == None ==>
              "GENERATED: " <= LabelsOf(spec, kind).generated && "EXISTING: " <= LabelsOf(spec, kind).existing
    ensures kind != "" ==> LabelsOf(spec.(kind := ""), kind) == LabelsOf(spec.(kind := kind), "")
  {
    var name := if spec.kind == "" then kind else spec.kind;
    assert LABEL_GENERATED + ": " + spec.whenStamp + "/" + name == "GENERATED: " + (spec.whenStamp + "/" + name);
    assert LABEL_EXISTING + ": " + spec.lastStamp + "/" + name == "EXISTING: " + (spec.lastStamp + "/" + name);
  }

  // --- Whatever is written is recognised -------------------------------------------------------

  lemma DefaultMark(custom: DiffLabels, front: string)
    requires front == "<<<<<<< " || front == ">>>>>>> "
    ensures front + ("EXISTING" + ":") in Marks(custom) && front + ("GENERATED" + ":") in Marks(custom)
  {
    assert "<<<<<<< " + ("EXISTING" + ":") == "<<<<<<< EXISTING:";
    assert ">>>>>>> " + ("EXISTING" + ":") == ">>>>>>> EXISTING:";
    assert "<<<<<<< " + ("GENERATED" + ":") == "<<<<<<< GENERATED:";
    assert ">>>>>>> " + ("GENERATED" + ":") == ">>>>>>> GENERATED:";
  }

  lemma NamedMark(custom: DiffLabels, front: string)
    requires front == "<<<<<<< " || front == ">>>>>>> "
    ensures custom.existing != "" ==> front + custom.existing + "\n" in Marks(custom)
    ensures custom.generated != "" ==> front + custom.generated + "\n" in Marks(custom)
  {
  }

  lemma Regroup(front: string, side: string, stamp: string, name: string)
    ensures front + (side + ":") + (" " + stamp + "/" + name + "\n") == front + (side + ": " + stamp + "/" + name) + "\n"
  {
    assert side + ": " == side + ":" + " ";
  }

  /** One label, given or made from its side and clock, stands behind a marker's start. */
  lemma NameMakesMark(custom: DiffLabels, front: string, side: string, given: string, stamp: string, kind: string, name: string)
    requires front + (side + ":") in Marks(custom)
    requires given != "" ==> front + given + "\n" in Marks(custom)
    requires name == if given != "" then given else side + ": " + stamp + "/" + kind
    ensures exists m, n :: m in Marks(custom) && m + n == front + name + "\n"
  {
    hide Marks;
    var line := front + name + "\n";
    Regroup(front, side, stamp, kind);
    assert line + "" == line;
  }

  /** The start of a marker that a label written under spec makes. */
  lemma LabelMakesMark(spec: DiffSpec, kind: string, front: string)
    requires front == "<<<<<<< " || front == ">>>>>>> "
    ensures exists m, n :: m in Marks(ExplicitLabels(spec)) && m + n == front + LabelsOf(spec, kind).existing + "\n"
    ensures exists m, n :: m in Marks(ExplicitLabels(spec)) && m + n == front + LabelsOf(spec, kind).generated + "\n"
  {
    var labels, custom := LabelsOf(spec, kind), ExplicitLabels(spec);
    var name := if spec.kind == "" then kind else spec.kind;
    DefaultMark(custom, front);
    NamedMark(custom, front);
    NameMakesMark(custom, front, "EXISTING", custom.existing, spec.lastStamp, name, labels.existing);
    NameMakesMark(custom, front, "GENERATED", custom.generated, spec.whenStamp, name, labels.generated);
  }

  /** Any one marker is enough, opening or closing, of either side, wherever a line may
      start. */
  lemma AnyMarkIsRecognised(before: string, front: string, name: string, after: string, spec: DiffSpec, kind: string)
    requires before == "" || EndsWithNewline(before)
    requires front == "<<<<<<< " || front == ">>>>>>> "
    requires name == LabelsOf(spec, kind).existing || name == LabelsOf(spec, kind).generated
    ensures HasConflicts(before + (front + name + "\n") + after, ExplicitLabels(spec))
  {
    hide LabelsOf, HasLine, HasConflicts, Marks;
    LabelMakesMark(spec, kind, front);
    var line := front + name + "\n";
    var m, n :| m in Marks(ExplicitLabels(spec)) && m + n == line;
    var text := before + line + after;
    HasLineAt(before, line, after);
    HasLinePrefix(text, m, n);
    MarksAre(text, ExplicitLabels(spec));
  }

  // --- The annotated view is recognised -----------------------------------------------------------

  ghost predicate HasChange(hs: seq<Hunk<string>>) {
    exists i | 0 <= i < |hs| :: hs[i].ChangeHunk?
  }

  lemma {:induction false} NoChange(hs: seq<Hunk<string>>)
    requires !HasChange(hs)
    ensures SideLines(hs, Generated) == SideLines(hs, Existing)
  {
    if hs != [] {
      assert !hs[0].ChangeHunk?;
      forall i | 0 <= i < |hs[1..]| ensures !hs[1..][i].ChangeHunk? {
        assert hs[1..][i] == hs[i + 1];
      }
      NoChange(hs[1..]);
    }
  }

  lemma {:induction false} ChangeHasLines(hs: seq<Hunk<string>>)
    requires HasChange(hs) && forall i | 0 <= i < |hs| :: NonEmpty(hs[i])
    ensures SideLines(hs, Generated) != [] || SideLines(hs, Existing) != []
  {
    assert NonEmpty(hs[0]);
    if hs[0].SameHunk? {
      assert HunkSide(hs[0], Generated) != [];
    }
  }

  lemma BlockOpens(before: string, lines: seq<string>, name: string, after: seq<string>)
    requires lines != [] && (before == "" || EndsWithNewline(before))
    ensures exists rest :: before + Join(Block(lines, name) + after) == before + (MARK_START + name + "\n") + rest
  {
    hide Join, Padded;
    var mark, more := MARK_START + name + "\n", Padded(lines) + [MARK_END + name + "\n"] + after;
    assert Block(lines, name) + after == [mark] + more;
    JoinCons(mark, more);
    assert before + (mark + Join(more)) == before + mark + Join(more);
  }

  lemma RenderCons(hs: seq<Hunk<string>>, labels: DiffLabels)
    requires hs != []
    ensures RenderHunks(hs, labels) == RenderHunk(hs[0], labels) + RenderHunks(hs[1..], labels)
  {
  }

  /** A changed run opens with a marker of the side it first shows. */
  lemma ChangeOpens(h: Hunk<string>, labels: DiffLabels, before: string, after: seq<string>) returns (name: string, rest: string)
    requires h.ChangeHunk? && NonEmpty(h) && (before == "" || EndsWithNewline(before))
    ensures name == if h.existing != [] then labels.existing else labels.generated
    ensures before + Join(RenderHunk(h, labels) + after) == before + (MARK_START + name + "\n") + rest
  {
    NoBlock(labels.existing);
    hide Join, Block;
    var eb, gb := Block(h.existing, labels.existing), Block(h.generated, labels.generated);
    if h.existing != [] {
      name := labels.existing;
      BlockOpens(before, h.existing, name, gb + after);
      assert eb + gb + after == eb + (gb + after);
    } else {
      name := labels.generated;
      BlockOpens(before, h.generated, name, after);
      assert eb + gb + after == gb + after;
    }
    rest :| before + Join(eb + gb + after) == before + (MARK_START + name + "\n") + rest;
  }

  /** The hunks of two different texts. */
  ghost predicate Changed(hs: seq<Hunk<string>>) {
    && HasChange(hs) && (forall i | 0 <= i < |hs| :: NonEmpty(hs[i]))
    && IsLines(SideLines(hs, Generated)) && IsLines(SideLines(hs, Existing))
  }

  /** The first changed run opens with a marker where a line starts. */
  lemma {:induction false} ViewIsMarked(hs: seq<Hunk<string>>, before: string, labels: DiffLabels) returns (name: string, rest: string, front: string)
    requires Changed(hs) && (before == "" || EndsWithNewline(before))
    ensures name == labels.existing || name == labels.generated
    ensures front == "" || EndsWithNewline(front)
    ensures before + Join(RenderHunks(hs, labels)) == front + (MARK_START + name + "\n") + rest
  {
    assert hs != [] && NonEmpty(hs[0]);
    RenderCons(hs, labels);
    hide Join, RenderHunks, RenderHunk, Changed, NonEmpty;
    if hs[0].ChangeHunk? {
      front := before;
      name, rest := ChangeOpens(hs[0], labels, before, RenderHunks(hs[1..], labels));
    } else {
      SharedRunEnds(hs, labels, before);
      name, rest, front := ViewIsMarked(hs[1..], before + Join(hs[0].lines), labels);
    }
  }

  /** A shared run in front of a changed one ends with a newline. */
  lemma SharedRunEnds(hs: seq<Hunk<string>>, labels: DiffLabels, before: string)
    requires Changed(hs) && hs[0].SameHunk?
    ensures Changed(hs[1..]) && EndsWithNewline(before + Join(hs[0].lines))
    ensures before + Join(RenderHunk(hs[0], labels) + RenderHunks(hs[1..], labels))
         == before + Join(hs[0].lines) + Join(RenderHunks(hs[1..], labels))
  {
    var lines, tail := hs[0].lines, hs[1..];
    var k :| 0 <= k < |hs| && hs[k].ChangeHunk?;
    assert tail[k - 1] == hs[k];
    assert NonEmpty(hs[0]);
    forall i | 0 <= i < |tail| ensures NonEmpty(tail[i]) {
      assert tail[i] == hs[i + 1];
    }
    ChangeHasLines(tail);
    assert SideLines(hs, Generated) == lines + SideLines(tail, Generated);
    assert SideLines(hs, Existing) == lines + SideLines(tail, Existing);
    hide SideLines, Join, HasChange, RenderHunks;
    LinesApart(lines, SideLines(tail, Generated));
    LinesApart(lines, SideLines(tail, Existing));
    LastLineEnds(lines);
    JoinConcat(lines, RenderHunks(tail, labels));
    Reassociate(before, Join(lines), Join(RenderHunks(tail, labels)));
  }

  lemma Reassociate(a: string, b: string, c: string)
    ensures a + (b + c) == a + b + c
    ensures EndsWithNewline(b) ==> EndsWithNewline(a + b)
  {
  }

  /** A view that shows a change is itself recognised as unresolved, so that it is never
      merged into. */
  lemma ChangedViewIsRecognised(generated: string, existing: string, spec: DiffSpec)
    requires generated != existing
    ensures HasConflicts(DiffOf(generated, existing, spec).content, ExplicitLabels(spec))
  {
    LinesOfIsLines(generated);
    LinesOfIsLines(existing);
    hide LinesOf, Join, HunksOf, LabelsOf, RenderHunks, HasConflicts, SideLines, SharedLines, IsLines, HasChange;
    var gl, el, labels := LinesOf(generated), LinesOf(existing), LabelsOf(spec, "diff");
    var hs := HunksOf(gl, el);
    HunksRebuildBothSides(gl, el);
    if !HasChange(hs) {
      NoChange(hs);
    }
    var name, rest, front := ViewIsMarked(hs, "", labels);
    var content := Join(RenderHunks(hs, labels));
    assert "" + content == content;
    AnyMarkIsRecognised(front, "<<<<<<< ", name, rest, spec, "diff");
  }

  /** The flags of a view say whether it shows a change. */
  lemma ViewFlags(generated: string, existing: string, spec: DiffSpec)
    ensures var r := DiffOf(generated, existing, spec);
            && (r.conflict <==> generated != existing)
            && (r.outcome == Unchanged <==> generated == existing)
            && (generated == existing ==> r.content == existing)
  {
  }
}
