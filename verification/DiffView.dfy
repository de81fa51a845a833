/** The annotated two-way view, and how both sides are read back out of it. */
module DiffView {
  import opened Options
  import opened Text
  import opened Markers
  import opened Diff3
  import opened TwoWay

  datatype DiffOutcome = Unchanged | Changed

  datatype DiffResult = DiffResult(content: string, conflict: bool, outcome: DiffOutcome)

  // --- Writing the view ------------------------------------------------------------

  /** Every line, followed by a newline of its own when it has none. */
  function Padded(lines: seq<string>): seq<string> {
    if lines == [] then []
    else [lines[0]] + (if EndsWithNewline(lines[0]) then [] else ["\n"]) + Padded(lines[1..])
  }

  function Block(lines: seq<string>, name: string): seq<string> {
    if lines == [] then []
    else [MARK_START + name + "\n"] + Padded(lines) + [MARK_END + name + "\n"]
  }

  function RenderHunk(h: Hunk<string>, labels: DiffLabels): seq<string> {
    match h
    case SameHunk(lines) => lines
    case ChangeHunk(g, e) => Block(e, labels.existing) + Block(g, labels.generated)
  }

  function RenderHunks(hs: seq<Hunk<string>>, labels: DiffLabels): seq<string> {
    if hs == [] then [] else RenderHunk(hs[0], labels) + RenderHunks(hs[1..], labels)
  }

  ghost function DiffOf(generated: string, existing: string, spec: DiffSpec): DiffResult {
    if generated == existing then DiffResult(generated, false, Unchanged)
    else DiffResult(Join(RenderHunks(HunksOf(LinesOf(generated), LinesOf(existing)), LabelsOf(spec, "diff"))), true, Changed)
  }

  method WriteBlock(out: seq<string>, lines: seq<string>, name: string) returns (res: seq<string>)
    requires lines != []
    ensures res == out + Block(lines, name)
  {
    hide Padded;
    res := out + [MARK_START + name + "\n"];
    ghost var start := res;
    PaddedNone();
    assert lines[..0] == [];
    for i := 0 to |lines|
      invariant res == start + Padded(lines[..i])
    {
      PaddedSnoc(lines[..i], lines[i]);
      assert lines[..i + 1] == lines[..i] + [lines[i]];
      res := res + [lines[i]];
      if !EndsWithNewline(lines[i]) {
        res := res + ["\n"];
      }
    }
    assert lines[..|lines|] == lines;
    res := res + [MARK_END + name + "\n"];
  }

  lemma PaddedNone()
    ensures Padded([]) == []
  {
  }

  lemma {:induction false} PaddedSnoc(lines: seq<string>, line: string)
    ensures Padded(lines + [line]) == Padded(lines) + [line] + (if EndsWithNewline(line) then [] else ["\n"])
  {
    if lines == [] {
      assert (lines + [line])[1..] == [] && Padded([]) == [];
    } else {
      assert (lines + [line])[1..] == lines[1..] + [line];
      PaddedSnoc(lines[1..], line);
    }
  }

  method WriteHunk(out: seq<string>, h: Hunk<string>, labels: DiffLabels) returns (res: seq<string>)
    ensures res == out + RenderHunk(h, labels)
  {
    hide Block;
    match h {
      case SameHunk(lines) =>
        res := out + lines;
      case ChangeHunk(g, e) =>
        NoBlock(labels.existing);
        NoBlock(labels.generated);
        res := out;
        if |e| > 0 {
          res := WriteBlock(res, e, labels.existing);
        }
        assert res == out + Block(e, labels.existing);
        if |g| > 0 {
          res := WriteBlock(res, g, labels.generated);
        }
        assert res == out + (Block(e, labels.existing) + Block(g, labels.generated));
    }
  }

  method WriteHunks(hs: seq<Hunk<string>>, labels: DiffLabels) returns (out: seq<string>)
    ensures out == RenderHunks(hs, labels)
  {
    hide RenderHunks, RenderHunk;
    out := [];
    RenderNone(labels);
    assert hs[..0] == [];
    for i := 0 to |hs|
      invariant out == RenderHunks(hs[..i], labels)
    {
      RenderSnoc(hs[..i], hs[i], labels);
      assert hs[..i + 1] == hs[..i] + [hs[i]];
      out := WriteHunk(out, hs[i], labels);
    }
    assert hs[..|hs|] == hs;
  }

  method Diff(generated: string, existing: string, spec: DiffSpec) returns (r: DiffResult)
    ensures r == DiffOf(generated, existing, spec)
  {
    if generated == existing {
      return DiffResult(generated, false, Unchanged);
    }
    hide LinesOf, HunksOf, RenderHunks, Join, LabelsOf;
    var gl := Lines(generated);
    var el := Lines(existing);
    var hs := Hunks(gl, el);
    var out := WriteHunks(hs, LabelsOf(spec, "diff"));
    r := DiffResult(Join(out), true, Changed);
  }

  lemma NoBlock(name: string)
    ensures Block([], name) == []
  {
  }

  lemma RenderNone(labels: DiffLabels)
    ensures RenderHunks([], labels) == []
  {
  }

  lemma {:induction false} RenderSnoc(hs: seq<Hunk<string>>, h: Hunk<string>, labels: DiffLabels)
    ensures RenderHunks(hs + [h], labels) == RenderHunks(hs, labels) + RenderHunk(h, labels)
  {
    hide RenderHunk;
    if hs == [] {
      assert (hs + [h])[1..] == [] && RenderHunks([], labels) == [];
    } else {
      assert (hs + [h])[1..] == hs[1..] + [h];
      RenderSnoc(hs[1..], h, labels);
    }
  }

  lemma {:induction false} PaddedComplete(lines: seq<string>)
    requires forall i | 0 <= i < |lines| :: EndsWithNewline(lines[i])
    ensures Padded(lines) == lines
  {
    if lines != [] {
      PaddedComplete(lines[1..]);
      assert EndsWithNewline(lines[0]);
    }
  }

  lemma BlockText(lines: seq<string>, name: string)
    requires lines != [] && forall i | 0 <= i < |lines| :: EndsWithNewline(lines[i])
    ensures Join(Block(lines, name)) == ("<<<<<<< " + name + "\n") + Join(lines) + (">>>>>>> " + name + "\n")
  {
    PaddedComplete(lines);
    hide Join, Padded;
    var open, close := MARK_START + name + "\n", MARK_END + name + "\n";
    assert Block(lines, name) == [open] + lines + [close];
    JoinConcat([open] + lines, [close]);
    JoinConcat([open], lines);
    JoinOne(open);
    JoinOne(close);
  }

  /** The view of two texts that share no line: all of the existing one between its own
      markers, and then all of the generated one between its own. */
  lemma WholeViewOf(generated: string, existing: string, spec: DiffSpec)
    requires EndsWithNewline(generated) && EndsWithNewline(existing)
    requires forall i, j | 0 <= i < |LinesOf(generated)| && 0 <= j < |LinesOf(existing)| ::
               LinesOf(generated)[i] != LinesOf(existing)[j]
    ensures var labels := LabelsOf(spec, "diff");
            DiffOf(generated, existing, spec).content
            == ("<<<<<<< " + labels.existing + "\n") + existing + (">>>>>>> " + labels.existing + "\n")
               + (("<<<<<<< " + labels.generated + "\n") + generated + (">>>>>>> " + labels.generated + "\n"))
  {
    var labels, gl, el := LabelsOf(spec, "diff"), LinesOf(generated), LinesOf(existing);
    CompleteText(generated);
    CompleteText(existing);
    assert generated != existing by {
      assert gl[0] == gl[0];
    }
    hide LinesOf, Join, HunksOf, LabelsOf, Block, RenderHunks;
    NothingShared(gl, el);
    BlockText(gl, labels.generated);
    BlockText(el, labels.existing);
    OneChangeText(gl, el, labels);
  }

  lemma OneChangeText(g: seq<string>, e: seq<string>, labels: DiffLabels)
    ensures Join(RenderHunks([ChangeHunk(g, e)], labels))
         == Join(Block(e, labels.existing)) + Join(Block(g, labels.generated))
  {
    var hs := [ChangeHunk(g, e)];
    assert hs[1..] == [] && RenderHunks([], labels) == [];
    hide Join, Block;
    var eb, gb := Block(e, labels.existing), Block(g, labels.generated);
    assert RenderHunks(hs, labels) == eb + gb + [] == eb + gb;
    JoinConcat(Block(e, labels.existing), Block(g, labels.generated));
  }

  // --- The lines of the view ------------------------------------------------------------

  function Complete(line: string): string {
    if EndsWithNewline(line) then line else line + "\n"
  }

  function CompleteAll(lines: seq<string>): seq<string> {
    seq(|lines|, i requires 0 <= i < |lines| => Complete(lines[i]))
  }

  function BlockLines(lines: seq<string>, name: string): seq<string> {
    if lines == [] then []
    else [MARK_START + name + "\n"] + CompleteAll(lines) + [MARK_END + name + "\n"]
  }

  function HunkLines(h: Hunk<string>, labels: DiffLabels): seq<string> {
    match h
    case SameHunk(lines) => lines
    case ChangeHunk(g, e) => BlockLines(e, labels.existing) + BlockLines(g, labels.generated)
  }

  function ViewLines(hs: seq<Hunk<string>>, labels: DiffLabels): seq<string> {
    if hs == [] then [] else HunkLines(hs[0], labels) + ViewLines(hs[1..], labels)
  }

  lemma {:induction false} PaddedJoins(lines: seq<string>)
    ensures Join(Padded(lines)) == Join(CompleteAll(lines))
  {
    if lines != [] {
      var line := lines[0];
      var pad := if EndsWithNewline(line) then [] else ["\n"];
      PaddedJoins(lines[1..]);
      assert CompleteAll(lines) == [Complete(line)] + CompleteAll(lines[1..]);
      JoinCons(Complete(line), CompleteAll(lines[1..]));
      JoinConcat([line] + pad, Padded(lines[1..]));
      JoinConcat([line], pad);
      JoinOne(line);
      JoinOne("\n");
    }
  }

  lemma BlockJoins(lines: seq<string>, name: string)
    ensures Join(Block(lines, name)) == Join(BlockLines(lines, name))
  {
    hide Join, Padded, CompleteAll;
    var open, close := [MARK_START + name + "\n"], [MARK_END + name + "\n"];
    PaddedJoins(lines);
    JoinConcat(open + Padded(lines), close);
    JoinConcat(open, Padded(lines));
    JoinConcat(open + CompleteAll(lines), close);
    JoinConcat(open, CompleteAll(lines));
  }

  lemma HunkJoins(h: Hunk<string>, labels: DiffLabels)
    ensures Join(RenderHunk(h, labels)) == Join(HunkLines(h, labels))
  {
    hide Join, Block, BlockLines;
    match h
    case SameHunk(_) =>
    case ChangeHunk(g, e) =>
      BlockJoins(e, labels.existing);
      BlockJoins(g, labels.generated);
      JoinConcat(Block(e, labels.existing), Block(g, labels.generated));
      JoinConcat(BlockLines(e, labels.existing), BlockLines(g, labels.generated));
  }

  lemma {:induction false} ViewJoins(hs: seq<Hunk<string>>, labels: DiffLabels)
    ensures Join(RenderHunks(hs, labels)) == Join(ViewLines(hs, labels))
  {
    hide Join, RenderHunk, HunkLines;
    if hs != [] {
      ViewJoins(hs[1..], labels);
      HunkJoins(hs[0], labels);
      JoinConcat(RenderHunk(hs[0], labels), RenderHunks(hs[1..], labels));
      JoinConcat(HunkLines(hs[0], labels), ViewLines(hs[1..], labels));
    }
  }

  // --- Reading a side back ---------------------------------------------------------------

  /** Where a reader of the view stands: in shared text or inside a side's block. */
  datatype Place = Outside | Inside(side: Side)

  predicate IsMark(line: string) {
    || MARK_START + LABEL_EXISTING + ":" <= line
    || MARK_END + LABEL_EXISTING + ":" <= line
    || MARK_START + LABEL_GENERATED + ":" <= line
    || MARK_END + LABEL_GENERATED + ":" <= line
  }

  /** The place after a marker line. */
  function PlaceAfter(line: string): Place {
    if MARK_START + LABEL_EXISTING + ":" <= line then Inside(Existing)
    else if MARK_START + LABEL_GENERATED + ":" <= line then Inside(Generated)
    else Outside
  }

  /** The lines of one side: shared lines and the lines of that side's own blocks. */
  function ReadLines(lines: seq<string>, side: Side, at: Place): seq<string> {
    if lines == [] then []
    else if IsMark(lines[0]) then ReadLines(lines[1..], side, PlaceAfter(lines[0]))
    else (if at == Outside || at == Inside(side) then [lines[0]] else []) + ReadLines(lines[1..], side, at)
  }

  ghost function ReadSide(view: string, side: Side): string {
    Join(ReadLines(LinesOf(view), side, Outside))
  }

  predicate NoMarks(lines: seq<string>) {
    forall i | 0 <= i < |lines| :: !IsMark(lines[i])
  }

  /** The labels a diff writes when none are given explicitly. */
  predicate DefaultLabels(labels: DiffLabels) {
    && LABEL_EXISTING + ":" <= labels.existing
    && LABEL_GENERATED + ":" <= labels.generated
    && NEWLINE !in labels.existing && NEWLINE !in labels.generated
  }

  lemma MarkLines(labels: DiffLabels)
    requires DefaultLabels(labels)
    ensures IsMark(MARK_START + labels.existing + "\n") && PlaceAfter(MARK_START + labels.existing + "\n") == Inside(Existing)
    ensures IsMark(MARK_START + labels.generated + "\n") && PlaceAfter(MARK_START + labels.generated + "\n") == Inside(Generated)
    ensures IsMark(MARK_END + labels.existing + "\n") && PlaceAfter(MARK_END + labels.existing + "\n") == Outside
    ensures IsMark(MARK_END + labels.generated + "\n") && PlaceAfter(MARK_END + labels.generated + "\n") == Outside
  {
    ExistingMarkLines(labels.existing);
    GeneratedMarkLines(labels.generated);
  }

  lemma ExistingMarkLines(name: string)
    requires LABEL_EXISTING + ":" <= name
    ensures IsMark(MARK_START + name + "\n") && PlaceAfter(MARK_START + name + "\n") == Inside(Existing)
    ensures IsMark(MARK_END + name + "\n") && PlaceAfter(MARK_END + name + "\n") == Outside
  {
    PrefixUnder(MARK_START, LABEL_EXISTING + ":", name, "\n");
    PrefixUnder(MARK_END, LABEL_EXISTING + ":", name, "\n");
    OpensDiffer(MARK_END + name + "\n");
  }

  lemma GeneratedMarkLines(name: string)
    requires LABEL_GENERATED + ":" <= name
    ensures IsMark(MARK_START + name + "\n") && PlaceAfter(MARK_START + name + "\n") == Inside(Generated)
    ensures IsMark(MARK_END + name + "\n") && PlaceAfter(MARK_END + name + "\n") == Outside
  {
    PrefixUnder(MARK_START, LABEL_GENERATED + ":", name, "\n");
    PrefixUnder(MARK_END, LABEL_GENERATED + ":", name, "\n");
    OpensDiffer(MARK_END + name + "\n");
    assert name[0] == (LABEL_GENERATED + ":")[0] == 'G';
    assert (MARK_START + name + "\n")[8] == name[0] && (MARK_START + LABEL_EXISTING + ":")[8] == 'E';
  }

  lemma OpensDiffer(line: string)
    requires line != "" && line[0] == '>'
    ensures !(MARK_START + LABEL_EXISTING + ":" <= line) && !(MARK_START + LABEL_GENERATED + ":" <= line)
  {
    assert (MARK_START + LABEL_EXISTING + ":")[0] == '<' && (MARK_START + LABEL_GENERATED + ":")[0] == '<';
  }

  lemma PrefixUnder(front: string, prefix: string, name: string, end: string)
    requires prefix <= name
    ensures front + prefix <= front + name + end
  {
    assert front + name + end == (front + prefix) + (name[|prefix|..] + end);
  }

  lemma {:induction false} ReadPlain(lines: seq<string>, rest: seq<string>, side: Side, at: Place)
    requires NoMarks(lines)
    ensures ReadLines(lines + rest, side, at)
         == (if at == Outside || at == Inside(side) then lines else []) + ReadLines(rest, side, at)
  {
    if lines == [] {
      assert lines + rest == rest;
    } else {
      hide IsMark;
      assert (lines + rest)[1..] == lines[1..] + rest;
      assert !IsMark(lines[0]) && NoMarks(lines[1..]);
      ReadPlain(lines[1..], rest, side, at);
    }
  }

  lemma ReadMark(mark: string, rest: seq<string>, side: Side, at: Place)
    requires IsMark(mark)
    ensures ReadLines([mark] + rest, side, at) == ReadLines(rest, side, PlaceAfter(mark))
  {
    assert ([mark] + rest)[1..] == rest;
  }

  lemma CompleteIsNoMark(line: string)
    requires !IsMark(line)
    ensures !IsMark(Complete(line))
  {
    NewlineAddsNoPrefix(MARK_START + LABEL_EXISTING + ":", line);
    NewlineAddsNoPrefix(MARK_END + LABEL_EXISTING + ":", line);
    NewlineAddsNoPrefix(MARK_START + LABEL_GENERATED + ":", line);
    NewlineAddsNoPrefix(MARK_END + LABEL_GENERATED + ":", line);
  }

  lemma NewlineAddsNoPrefix(mark: string, line: string)
    requires mark != "" && mark[|mark| - 1] == ':'
    ensures mark <= line + "\n" <==> mark <= line
  {
    var longer := line + "\n";
    assert longer[|line|] == NEWLINE && longer[..|line|] == line;
    assert mark[|mark| - 1] != longer[|line|];
  }

  /** A block read from outside gives its lines to its own side only. */
  lemma ReadBlock(lines: seq<string>, name: string, rest: seq<string>, side: Side, own: Side)
    requires NoMarks(lines)
    requires IsMark(MARK_START + name + "\n") && PlaceAfter(MARK_START + name + "\n") == Inside(own)
    requires IsMark(MARK_END + name + "\n") && PlaceAfter(MARK_END + name + "\n") == Outside
    ensures ReadLines(BlockLines(lines, name) + rest, side, Outside)
         == (if side == own then CompleteAll(lines) else []) + ReadLines(rest, side, Outside)
  {
    hide IsMark, PlaceAfter, Complete, ReadLines;
    if lines == [] {
      assert BlockLines(lines, name) + rest == rest && CompleteAll(lines) == [];
    } else {
      var open, close, body := MARK_START + name + "\n", MARK_END + name + "\n", CompleteAll(lines);
      forall i | 0 <= i < |body| ensures !IsMark(body[i]) {
        CompleteIsNoMark(lines[i]);
      }
      assert BlockLines(lines, name) + rest == [open] + (body + ([close] + rest));
      ReadMark(open, body + ([close] + rest), side, Outside);
      ReadPlain(body, [close] + rest, side, Inside(own));
      ReadMark(close, rest, side, Inside(own));
    }
  }

  /** What reading gives for one side of a hunk. */
  function ReadHunk(h: Hunk<string>, side: Side): seq<string> {
    match h
    case SameHunk(lines) => lines
    case ChangeHunk(g, e) => CompleteAll(if side == Generated then g else e)
  }

  function ReadHunks(hs: seq<Hunk<string>>, side: Side): seq<string> {
    if hs == [] then [] else ReadHunk(hs[0], side) + ReadHunks(hs[1..], side)
  }

  lemma ReadChange(g: seq<string>, e: seq<string>, rest: seq<string>, side: Side, labels: DiffLabels)
    requires side != Base && DefaultLabels(labels) && NoMarks(g) && NoMarks(e)
    ensures ReadLines(BlockLines(e, labels.existing) + BlockLines(g, labels.generated) + rest, side, Outside)
         == CompleteAll(if side == Generated then g else e) + ReadLines(rest, side, Outside)
  {
    MarkLines(labels);
    hide *;
    var eb, gb := BlockLines(e, labels.existing), BlockLines(g, labels.generated);
    assert eb + gb + rest == eb + (gb + rest);
    ReadBlock(e, labels.existing, gb + rest, side, Existing);
    ReadBlock(g, labels.generated, rest, side, Generated);
    var read := ReadLines(rest, side, Outside);
    assert [] + read == read && [] + (CompleteAll(g) + read) == CompleteAll(g) + read;
  }

  lemma ReadOneHunk(h: Hunk<string>, rest: seq<string>, side: Side, labels: DiffLabels)
    requires side != Base && DefaultLabels(labels)
    requires NoMarks(HunkSide(h, Generated)) && NoMarks(HunkSide(h, Existing))
    ensures ReadLines(HunkLines(h, labels) + rest, side, Outside) == ReadHunk(h, side) + ReadLines(rest, side, Outside)
  {
    hide ReadLines, CompleteAll, BlockLines, DefaultLabels, NoMarks;
    match h
    case SameHunk(lines) => ReadPlain(lines, rest, side, Outside);
    case ChangeHunk(g, e) => ReadChange(g, e, rest, side, labels);
  }

  lemma {:induction false} ReadView(hs: seq<Hunk<string>>, side: Side, labels: DiffLabels)
    requires side != Base && DefaultLabels(labels)
    requires NoMarks(SideLines(hs, Generated)) && NoMarks(SideLines(hs, Existing))
    ensures ReadLines(ViewLines(hs, labels), side, Outside) == ReadHunks(hs, side)
  {
    if hs != [] {
      hide DefaultLabels, IsMark, HunkLines, ReadHunk;
      NoMarksApart(HunkSide(hs[0], Generated), SideLines(hs[1..], Generated));
      NoMarksApart(HunkSide(hs[0], Existing), SideLines(hs[1..], Existing));
      ReadView(hs[1..], side, labels);
      ReadOneHunk(hs[0], ViewLines(hs[1..], labels), side, labels);
    }
  }

  lemma NoMarksApart(a: seq<string>, b: seq<string>)
    requires NoMarks(a + b)
    ensures NoMarks(a) && NoMarks(b)
  {
    hide IsMark;
    assert forall i | 0 <= i < |a| :: (a + b)[i] == a[i];
    assert forall i | 0 <= i < |b| :: (a + b)[|a| + i] == b[i];
  }

  // --- The view's own lines ------------------------------------------------------------

  lemma LinesApart(a: seq<string>, b: seq<string>)
    requires IsLines(a + b)
    ensures IsLines(a) && IsLines(b)
    ensures b != [] ==> forall i | 0 <= i < |a| :: EndsWithNewline(a[i])
  {
    assert forall i | 0 <= i < |a| :: (a + b)[i] == a[i];
    assert forall i | 0 <= i < |b| :: (a + b)[|a| + i] == b[i];
  }

  ghost predicate AllComplete(lines: seq<string>) {
    forall i | 0 <= i < |lines| :: IsLine(lines[i]) && EndsWithNewline(lines[i])
  }

  lemma CompleteLine(line: string)
    requires IsLine(line)
    ensures IsLine(Complete(line)) && EndsWithNewline(Complete(line))
  {
    if !EndsWithNewline(line) {
      assert line[|line| - 1] != NEWLINE;
      assert forall i | 0 <= i < |line| :: line[i] != NEWLINE;
    }
  }

  lemma MarkerIsLine(front: string, name: string)
    requires NEWLINE !in front && NEWLINE !in name
    ensures IsLine(front + name + "\n") && EndsWithNewline(front + name + "\n")
  {
    assert forall c :: c in front + name ==> c in front || c in name;
    assert (front + name + "\n")[..|front + name|] == front + name;
  }

  lemma BlockIsComplete(lines: seq<string>, name: string)
    requires IsLines(lines) && NEWLINE !in name
    ensures AllComplete(BlockLines(lines, name))
  {
    MarkerIsLine(MARK_START, name);
    MarkerIsLine(MARK_END, name);
    forall i | 0 <= i < |lines| ensures IsLine(CompleteAll(lines)[i]) && EndsWithNewline(CompleteAll(lines)[i]) {
      CompleteLine(lines[i]);
    }
    hide IsLine, EndsWithNewline, Complete;
  }

  lemma CompleteThenRest(a: seq<string>, b: seq<string>)
    requires IsLines(b) && (AllComplete(a) || (IsLines(a) && b == []))
    ensures IsLines(a + b)
  {
  }

  lemma {:induction false} NoSidesNoHunks(hs: seq<Hunk<string>>)
    requires forall i | 0 <= i < |hs| :: NonEmpty(hs[i])
    requires SideLines(hs, Generated) == [] && SideLines(hs, Existing) == []
    ensures hs == []
  {
    if hs != [] {
      assert false;
    }
  }

  lemma HunkThenView(h: Hunk<string>, rest: seq<Hunk<string>>, labels: DiffLabels)
    requires IsLines(HunkSide(h, Generated)) && IsLines(HunkSide(h, Existing))
    requires NEWLINE !in labels.existing && NEWLINE !in labels.generated
    requires IsLines(ViewLines(rest, labels))
    requires h.ChangeHunk? || rest == [] || AllComplete(h.lines)
    ensures IsLines(HunkLines(h, labels) + ViewLines(rest, labels))
  {
    hide BlockLines, IsLine;
    match h
    case SameHunk(lines) =>
      assert rest == [] ==> ViewLines(rest, labels) == [];
      CompleteThenRest(lines, ViewLines(rest, labels));
    case ChangeHunk(g, e) =>
      BlockIsComplete(e, labels.existing);
      BlockIsComplete(g, labels.generated);
      CompleteThenRest(HunkLines(h, labels), ViewLines(rest, labels));
  }

  lemma {:induction false} ViewIsLines(hs: seq<Hunk<string>>, labels: DiffLabels)
    requires forall i | 0 <= i < |hs| :: NonEmpty(hs[i])
    requires IsLines(SideLines(hs, Generated)) && IsLines(SideLines(hs, Existing))
    requires NEWLINE !in labels.existing && NEWLINE !in labels.generated
    ensures IsLines(ViewLines(hs, labels))
  {
    if hs != [] {
      var h, rest := hs[0], hs[1..];
      LinesApart(HunkSide(h, Generated), SideLines(rest, Generated));
      LinesApart(HunkSide(h, Existing), SideLines(rest, Existing));
      hide IsLine, HunkLines;
      assert forall i | 0 <= i < |rest| :: rest[i] == hs[i + 1];
      ViewIsLines(rest, labels);
      if SideLines(rest, Generated) == [] && SideLines(rest, Existing) == [] {
        NoSidesNoHunks(rest);
      }
      HunkThenView(h, rest, labels);
    }
  }

  // --- Reading gives the side back ------------------------------------------------------

  /** The same text, up to one final newline. */
  predicate SameUpToFinalNewline(read: string, text: string) {
    read == text || read == text + "\n"
  }

  lemma {:induction false} ReadHunksLength(hs: seq<Hunk<string>>, side: Side)
    requires side != Base
    ensures |ReadHunks(hs, side)| == |SideLines(hs, side)|
  {
    if hs != [] {
      ReadHunksLength(hs[1..], side);
    }
  }

  lemma CompleteAllOf(lines: seq<string>)
    requires IsLines(lines)
    ensures AllComplete(lines) ==> CompleteAll(lines) == lines
    ensures SameUpToFinalNewline(Join(CompleteAll(lines)), Join(lines))
  {
    hide Join;
    if AllComplete(lines) {
      assert CompleteAll(lines) == lines;
    } else {
      var k := |lines| - 1;
      var init, last := lines[..k], lines[k];
      assert forall i | 0 <= i < k :: EndsWithNewline(lines[i]);
      assert lines == init + [last] && CompleteAll(lines) == init + [last + "\n"];
      JoinConcat(init, [last]);
      JoinConcat(init, [last + "\n"]);
      JoinOne(last);
      JoinOne(last + "\n");
    }
  }

  /** A hunk's own lines read back, in front of what the later hunks read back. */
  lemma ReadHunkText(h: Hunk<string>, side: Side, rest: seq<string>, restRead: seq<string>)
    requires side != Base && IsLines(HunkSide(h, side))
    requires SameUpToFinalNewline(Join(restRead), Join(rest)) && |restRead| == |rest|
    requires rest != [] ==> AllComplete(HunkSide(h, side))
    ensures SameUpToFinalNewline(Join(ReadHunk(h, side) + restRead), Join(HunkSide(h, side) + rest))
  {
    var own := HunkSide(h, side);
    CompleteAllOf(own);
    hide Join, CompleteAll, IsLines;
    JoinConcat(own, rest);
    JoinConcat(ReadHunk(h, side), restRead);
    JoinNone();
    if rest == [] {
      assert restRead == [];
    }
  }

  lemma {:induction false} ReadHunksText(hs: seq<Hunk<string>>, side: Side)
    requires side != Base && IsLines(SideLines(hs, side))
    ensures SameUpToFinalNewline(Join(ReadHunks(hs, side)), Join(SideLines(hs, side)))
  {
    if hs != [] {
      var h, rest := hs[0], hs[1..];
      LinesApart(HunkSide(h, side), SideLines(rest, side));
      hide Join, CompleteAll, IsLine, SameUpToFinalNewline;
      ReadHunksText(rest, side);
      ReadHunksLength(rest, side);
      ReadHunkText(h, side, SideLines(rest, side), ReadHunks(rest, side));
    }
  }

  /** Each side can be read back out of the view, up to one final newline, when no line
      of either input looks like a marker and the labels are the default ones. */
  lemma DiffIsReadable(generated: string, existing: string, spec: DiffSpec, side: Side)
    requires side != Base
    requires spec.labels == None && NEWLINE !in spec.whenStamp + spec.lastStamp + spec.kind
    requires NoMarks(LinesOf(generated)) && NoMarks(LinesOf(existing))
    ensures SameUpToFinalNewline(ReadSide(DiffOf(generated, existing, spec).content, side),
                                 if side == Generated then generated else existing)
  {
    LinesOfIsLines(generated);
    LinesOfIsLines(existing);
    hide IsMark, NoMarks, LinesOf, Join, IsLines, ReadLines, HunksOf, RenderHunks;
    var gl, el := LinesOf(generated), LinesOf(existing);
    if generated == existing {
      ReadPlain(gl, [], side, Outside);
      assert gl + [] == gl;
      NothingToRead(side);
    } else {
      var labels, hs := LabelsOf(spec, "diff"), HunksOf(gl, el);
      DefaultLabelsOf(spec);
      HunksRebuildBothSides(gl, el);
      ViewJoins(hs, labels);
      ViewIsLines(hs, labels);
      LinesOfJoin(ViewLines(hs, labels));
      ReadView(hs, side, labels);
      ReadHunksText(hs, side);
    }
  }

  lemma NothingToRead(side: Side)
    ensures ReadLines([], side, Outside) == []
  {
  }

  lemma NoneIn(c: char, x: string, y: string, z: string)
    requires c !in x + y + z
    ensures c !in x && c !in y && c !in z
  {
    assert forall a :: a in x + y + z <==> a in x + y || a in z;
    assert forall a :: a in x + y <==> a in x || a in y;
  }

  lemma DefaultLabelsOf(spec: DiffSpec)
    requires spec.labels == None && NEWLINE !in spec.whenStamp + spec.lastStamp + spec.kind
    ensures DefaultLabels(LabelsOf(spec, "diff"))
  {
    var labels := LabelsOf(spec, "diff");
    var kind := if spec.kind == "" then "diff" else spec.kind;
    NoneIn(NEWLINE, spec.whenStamp, spec.lastStamp, spec.kind);
    assert labels.existing == (LABEL_EXISTING + ":") + (" " + spec.lastStamp + "/" + kind);
    assert labels.generated == (LABEL_GENERATED + ":") + (" " + spec.whenStamp + "/" + kind);
  }
}
