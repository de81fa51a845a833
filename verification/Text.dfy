/** Texts as sequences of lines that keep their newline. */
module Text {

  const NEWLINE: char := '\n'

  // --- Joining and splitting ----------------------------------------------------

  function Join(lines: seq<string>): string {
    if lines == [] then "" else lines[0] + Join(lines[1..])
  }

  lemma JoinCons(line: string, rest: seq<string>)
    ensures Join([line] + rest) == line + Join(rest)
  {
    assert ([line] + rest)[1..] == rest;
  }

  lemma JoinNone()
    ensures Join([]) == ""
  {
  }

  lemma JoinOne(line: string)
    ensures Join([line]) == line
  {
    assert Join([line]) == line + Join([]);
  }

  lemma {:induction false} JoinConcat(a: seq<string>, b: seq<string>)
    ensures Join(a + b) == Join(a) + Join(b)
  {
    hide Join;
    JoinNone();
    if a == [] {
      assert a + b == b;
    } else {
      assert a == [a[0]] + a[1..] && a + b == [a[0]] + (a[1..] + b);
      JoinConcat(a[1..], b);
      JoinCons(a[0], a[1..]);
      JoinCons(a[0], a[1..] + b);
    }
  }

  predicate EndsWithNewline(text: string) {
    text != "" && text[|text| - 1] == NEWLINE
  }

  /** One line: not empty, and a newline nowhere but at its end. */
  ghost predicate IsLine(line: string) {
    line != "" && forall i | 0 <= i < |line| - 1 :: line[i] != NEWLINE
  }

  /** The lines of some text: only the last may lack its newline. */
  ghost predicate IsLines(lines: seq<string>) {
    && (forall i | 0 <= i < |lines| :: IsLine(lines[i]))
    && (forall i | 0 <= i < |lines| - 1 :: EndsWithNewline(lines[i]))
  }

  /** Length of the first line of a text, its newline included. */
  ghost function FirstLine(text: string): (n: nat)
    ensures n <= |text| && (text != "" ==> n > 0)
    ensures forall i | 0 <= i < n - 1 :: text[i] != NEWLINE
    ensures n < |text| ==> text[n - 1] == NEWLINE
  {
    if text == "" then 0
    else if text[0] == NEWLINE then 1
    else 1 + FirstLine(text[1..])
  }

  ghost function LinesOf(text: string): seq<string>
    decreases |text|
  {
    if text == "" then []
    else [text[..FirstLine(text)]] + LinesOf(text[FirstLine(text)..])
  }

  lemma {:induction false} LinesOfIsLines(text: string)
    ensures IsLines(LinesOf(text)) && Join(LinesOf(text)) == text
    decreases |text|
  {
    hide LinesOf, Join, FirstLine;
    EmptyHasNoLines();
    JoinNone();
    if text != "" {
      var n := FirstLine(text);
      var line, rest := text[..n], text[n..];
      LinesOfIsLines(rest);
      TakeFirstLine(text);
      JoinCons(line, LinesOf(rest));
      assert text == line + rest;
      LinesCons(line, LinesOf(rest));
    }
  }

  lemma LinesCons(line: string, lines: seq<string>)
    requires IsLine(line) && (EndsWithNewline(line) || lines == []) && IsLines(lines)
    ensures IsLines([line] + lines)
  {
  }

  /** Splitting undoes joining, so the lines of a text are unique. */
  lemma {:induction false} LinesOfJoin(lines: seq<string>)
    requires IsLines(lines)
    ensures LinesOf(Join(lines)) == lines
    decreases |lines|
  {
    if lines == [] {
      JoinNone();
      EmptyHasNoLines();
    } else {
      LinesOfJoin(lines[1..]);
      assert IsLine(lines[0]) && (EndsWithNewline(lines[0]) || lines[1..] == []);
      JoinNone();
      JoinCons(lines[0], lines[1..]);
      hide Join, LinesOf, IsLine;
      assert [lines[0]] + lines[1..] == lines;
      TakeLine(lines[0], Join(lines[1..]));
    }
  }

  lemma {:induction false} FirstLineIs(line: string, rest: string)
    requires IsLine(line) && (EndsWithNewline(line) || rest == "")
    ensures FirstLine(line + rest) == |line|
    decreases |line|
  {
    if |line| > 1 {
      assert (line + rest)[1..] == line[1..] + rest;
      assert forall i | 0 <= i < |line[1..]| - 1 :: line[1..][i] == line[i + 1];
      FirstLineIs(line[1..], rest);
    } else {
      assert (line + rest)[0] == line[0];
      if line[0] != NEWLINE { assert line + rest == line; assert line[1..] == ""; }
    }
  }

  method Lines(text: string) returns (out: seq<string>)
    ensures out == LinesOf(text)
  {
    hide LinesOf, FirstLine;
    out := [];
    var rest := text;
    EmptyHasNoLines();
    while rest != ""
      invariant LinesOf(text) == out + LinesOf(rest)
      decreases |rest|
    {
      var at := 0;
      while at < |rest| && rest[at] != NEWLINE
        invariant 0 <= at <= |rest|
        invariant forall i | 0 <= i < at :: rest[i] != NEWLINE
      {
        at := at + 1;
      }
      var end := if at == |rest| then at else at + 1;
      var line := rest[..end];
      assert rest == line + rest[end..];
      TakeLine(line, rest[end..]);
      assert out + ([line] + LinesOf(rest[end..])) == (out + [line]) + LinesOf(rest[end..]);
      out := out + [line];
      rest := rest[end..];
    }
  }

  lemma TakeFirstLine(text: string)
    requires text != ""
    ensures LinesOf(text) == [text[..FirstLine(text)]] + LinesOf(text[FirstLine(text)..])
  {
  }

  lemma EmptyHasNoLines()
    ensures LinesOf("") == []
  {
  }

  lemma TakeLine(line: string, rest: string)
    requires IsLine(line) && (EndsWithNewline(line) || rest == "")
    ensures LinesOf(line + rest) == [line] + LinesOf(rest)
  {
    FirstLineIs(line, rest);
    assert (line + rest)[..|line|] == line && (line + rest)[|line|..] == rest;
  }

  /** A text that ends with a newline has complete lines only. */
  lemma CompleteText(text: string)
    requires EndsWithNewline(text)
    ensures LinesOf(text) != [] && Join(LinesOf(text)) == text
    ensures forall i | 0 <= i < |LinesOf(text)| :: EndsWithNewline(LinesOf(text)[i])
  {
    LinesOfIsLines(text);
    hide LinesOf, Join;
    var lines := LinesOf(text);
    JoinNone();
    if lines != [] {
      var init, last := lines[..|lines| - 1], lines[|lines| - 1];
      assert IsLine(last) && lines == init + [last];
      JoinConcat(init, [last]);
      JoinOne(last);
      assert text[|text| - 1] == last[|last| - 1];
    }
  }

  // --- Searching --------------------------------------------------------------------

  predicate OccursAt(text: string, part: string, i: nat) {
    i + |part| <= |text| && text[i..i + |part|] == part
  }

  predicate Contains(text: string, part: string) {
    exists i | 0 <= i <= |text| :: OccursAt(text, part, i)
  }

  /** mark stands at the start of some line of text. */
  predicate HasLine(text: string, mark: string) {
    mark <= text || Contains(text, [NEWLINE] + mark)
  }

  lemma ContainsAt(before: string, part: string, after: string)
    ensures Contains(before + part + after, part)
  {
    assert OccursAt(before + part + after, part, |before|);
  }

  /** A mark written where a line starts is found there. */
  lemma HasLineAt(before: string, mark: string, after: string)
    requires before == "" || EndsWithNewline(before)
    ensures HasLine(before + mark + after, mark)
  {
    if before != "" {
      var front := before[..|before| - 1];
      ContainsAt(front, [NEWLINE] + mark, after);
      assert front + ([NEWLINE] + mark) + after == before + mark + after;
    }
  }

  /** Where a longer mark starts a line, so does each of its prefixes. */
  lemma HasLinePrefix(text: string, mark: string, more: string)
    requires HasLine(text, mark + more)
    ensures HasLine(text, mark)
  {
    if mark + more <= text {
      assert text[..|mark|] == mark;
    } else {
      var long, short := [NEWLINE] + (mark + more), [NEWLINE] + mark;
      var i :| 0 <= i <= |text| && OccursAt(text, long, i);
      assert text[i..i + |short|] == long[..|short|] == short;
      assert OccursAt(text, short, i);
    }
  }

  lemma HasLineChar(text: string, mark: string, x: char)
    requires HasLine(text, mark) && x in mark
    ensures x in text
  {
    if mark <= text {
      assert x in text[..|mark|];
    } else {
      var part := [NEWLINE] + mark;
      var i :| 0 <= i <= |text| && OccursAt(text, part, i);
      assert x in text[i..i + |part|];
    }
  }
}
