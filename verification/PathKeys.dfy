/** Canonical absolute paths as lists of segments, and the strings they stand for. */
module PathKeys {

  const SEPARATOR: char := '/'

  /** A name between separators. */
  ghost predicate IsSegment(name: string) {
    name != "" && SEPARATOR !in name && name != "." && name != ".."
  }

  /** A canonical absolute path, segment by segment; the root is []. */
  type Key = seq<string>

  ghost predicate IsKey(k: Key) {
    forall i | 0 <= i < |k| :: IsSegment(k[i])
  }

  function RenderSegments(k: Key): string {
    if k == [] then "" else [SEPARATOR] + k[0] + RenderSegments(k[1..])
  }

  /** The string a key stands for: "/" and the segments joined by "/". */
  function Render(k: Key): string {
    if k == [] then [SEPARATOR] else RenderSegments(k)
  }

  // --- Cleaning --------------------------------------------------------------------

  /** The pieces of a text between separators. */
  function Split(text: string): (parts: seq<string>)
    ensures parts != []
  {
    if text == "" then [""]
    else
      var rest := Split(text[1..]);
      if text[0] == SEPARATOR then [""] + rest else [[text[0]] + rest[0]] + rest[1..]
  }

  /** One more part appended to a clean key. */
  function Resolve(k: Key, part: string): Key {
    if part == "" || part == "." then k
    else if part == ".." then (if k == [] then k else k[..|k| - 1])
    else k + [part]
  }

  /** Parts resolved one after the other, starting from k. */
  function ResolveAll(k: Key, parts: seq<string>): Key
    decreases |parts|
  {
    if parts == [] then k else ResolveAll(Resolve(k, parts[0]), parts[1..])
  }

  function Clean(cwd: Key, p: string): Key {
    var absolute := p != "" && p[0] == SEPARATOR;
    ResolveAll(if absolute then [] else cwd, Split(p))
  }

  lemma {:induction false} SplitParts(text: string)
    ensures forall i | 0 <= i < |Split(text)| :: SEPARATOR !in Split(text)[i]
  {
    if text != "" {
      SplitParts(text[1..]);
      var rest := Split(text[1..]);
      if text[0] != SEPARATOR {
        assert Split(text) == [[text[0]] + rest[0]] + rest[1..];
        assert SEPARATOR !in [text[0]] + rest[0];
        assert forall i | 1 <= i < |Split(text)| :: Split(text)[i] == rest[i];
      } else {
        assert forall i | 1 <= i < |Split(text)| :: Split(text)[i] == rest[i - 1];
      }
    }
  }

  lemma {:induction false} ResolveAllIsKey(k: Key, parts: seq<string>)
    requires IsKey(k) && forall i | 0 <= i < |parts| :: SEPARATOR !in parts[i]
    ensures IsKey(ResolveAll(k, parts))
    decreases |parts|
  {
    if parts != [] {
      ResolveAllIsKey(Resolve(k, parts[0]), parts[1..]);
    }
  }

  lemma CleanIsKey(cwd: Key, p: string)
    requires IsKey(cwd)
    ensures IsKey(Clean(cwd, p))
  {
    SplitParts(p);
    ResolveAllIsKey([], Split(p));
    ResolveAllIsKey(cwd, Split(p));
  }

  lemma {:induction false} ResolveKeyParts(k: Key, parts: seq<string>)
    requires IsKey(parts)
    ensures ResolveAll(k, parts) == k + parts
    decreases |parts|
  {
    if parts == [] {
      assert k + parts == k;
    } else {
      assert IsSegment(parts[0]);
      ResolveKeyParts(k + [parts[0]], parts[1..]);
      assert k + parts == (k + [parts[0]]) + parts[1..];
    }
  }

  lemma {:induction false} SplitSegment(name: string, rest: string)
    requires SEPARATOR !in name
    ensures Split(name + rest) == [name + Split(rest)[0]] + Split(rest)[1..]
  {
    if name == "" {
      assert name + rest == rest && name + Split(rest)[0] == Split(rest)[0];
      assert [Split(rest)[0]] + Split(rest)[1..] == Split(rest);
    } else {
      assert (name + rest)[1..] == name[1..] + rest;
      SplitSegment(name[1..], rest);
      assert [name[0]] + (name[1..] + Split(rest)[0]) == name + Split(rest)[0];
    }
  }

  lemma SplitSeparator(rest: string)
    ensures Split([SEPARATOR] + rest) == [""] + Split(rest)
  {
    assert ([SEPARATOR] + rest)[1..] == rest;
  }

  lemma RenderNothing()
    ensures RenderSegments([]) == ""
  {
  }

  lemma RenderFirst(k: Key)
    requires k != []
    ensures RenderSegments(k) == [SEPARATOR] + k[0] + RenderSegments(k[1..])
  {
  }

  lemma SplitNothing()
    ensures Split("") == [""]
  {
  }

  lemma {:induction false} SplitRendered(k: Key)
    requires IsKey(k)
    ensures Split(RenderSegments(k)) == [""] + k
  {
    hide Split, RenderSegments;
    if k == [] {
      RenderNothing();
      SplitNothing();
      assert [""] + k == [""];
    } else {
      var rest := RenderSegments(k[1..]);
      SplitRendered(k[1..]);
      assert IsSegment(k[0]);
      RenderFirst(k);
      assert RenderSegments(k) == [SEPARATOR] + (k[0] + rest);
      SplitSeparator(k[0] + rest);
      SplitSegment(k[0], rest);
      assert k[0] + "" == k[0] && [k[0]] + k[1..] == k;
      assert ([""] + k[1..])[1..] == k[1..];
    }
  }

  /** Cleaning a rendered key gives the key back, so rendering is injective. */
  lemma CleanRendered(cwd: Key, k: Key)
    requires IsKey(k)
    ensures Clean(cwd, Render(k)) == k
  {
    SplitRendered(k);
    if k == [] {
      assert Split([SEPARATOR]) == [""] + Split("");
      assert ResolveAll([], ["", ""]) == ResolveAll([], [""]);
    } else {
      ResolveKeyParts([], k);
      assert ([""] + k)[1..] == k && [] + k == k;
    }
  }

  lemma RenderIsInjective(a: Key, b: Key)
    requires IsKey(a) && IsKey(b) && Render(a) == Render(b)
    ensures a == b
  {
    CleanRendered([], a);
    CleanRendered([], b);
  }

  // --- What cleaning means --------------------------------------------------------------

  /** A text that is not taken from the root. */
  predicate IsRelative(p: string) {
    p == "" || p[0] != SEPARATOR
  }

  lemma {:induction false} SplitJoin(a: string, b: string)
    ensures Split(a + ([SEPARATOR] + b)) == Split(a) + Split(b)
  {
    hide Split;
    if a == "" {
      assert a + ([SEPARATOR] + b) == [SEPARATOR] + b;
      SplitSeparator(b);
      SplitNothing();
    } else {
      var first, rest := [a[0]], a[1..] + ([SEPARATOR] + b);
      SplitJoin(a[1..], b);
      assert a == first + a[1..] && a + ([SEPARATOR] + b) == first + rest;
      var r, t := Split(a[1..]), Split(b);
      if a[0] == SEPARATOR {
        SplitSeparator(rest);
        SplitSeparator(a[1..]);
        assert [""] + (r + t) == ([""] + r) + t;
      } else {
        SplitSegment(first, rest);
        SplitSegment(first, a[1..]);
        assert (r + t)[1..] == r[1..] + t;
        assert [first + r[0]] + (r[1..] + t) == ([first + r[0]] + r[1..]) + t;
      }
    }
  }

  lemma {:induction false} ResolveAllConcat(k: Key, a: seq<string>, b: seq<string>)
    ensures ResolveAll(k, a + b) == ResolveAll(ResolveAll(k, a), b)
    decreases |a|
  {
    if a == [] {
      assert a + b == b;
    } else {
      assert (a + b)[1..] == a[1..] + b;
      ResolveAllConcat(Resolve(k, a[0]), a[1..], b);
    }
  }

  /** A path joined of two leads where the second leads from where the first does. */
  lemma CleanJoined(cwd: Key, p: string, q: string)
    requires p != "" && IsRelative(q)
    ensures Clean(cwd, p + [SEPARATOR] + q) == Clean(Clean(cwd, p), q)
  {
    hide Split, ResolveAll;
    SplitJoin(p, q);
    assert p + [SEPARATOR] + q == p + ([SEPARATOR] + q);
    ResolveAllConcat(if p[0] == SEPARATOR then [] else cwd, Split(p), Split(q));
    assert (p + [SEPARATOR] + q)[0] == p[0];
  }

  /** A path from the root leads to the same place wherever it is taken from. */
  lemma CleanAbsolute(cwd: Key, q: string)
    ensures Clean(cwd, [SEPARATOR] + q) == Clean([], q)
    ensures Clean(cwd, [SEPARATOR]) == []
  {
    SplitSeparator(q);
    SplitSeparator("");
    SplitNothing();
    assert [SEPARATOR] + "" == [SEPARATOR];
    hide Split;
    assert ([""] + Split(q))[1..] == Split(q) && ([""] + [""])[1..] == [""] && [""][1..] == [];
    assert ResolveAll([], [""]) == ResolveAll([], []) == [];
  }

  /** A single name, and the three that are none. */
  lemma CleanStep(cwd: Key, name: string)
    requires SEPARATOR !in name
    ensures name == "" || name == "." ==> Clean(cwd, name) == cwd
    ensures name == ".." && cwd != [] ==> Clean(cwd, name) + [cwd[|cwd| - 1]] == cwd
    ensures name == ".." && cwd == [] ==> Clean(cwd, name) == []
    ensures IsSegment(name) ==> Clean(cwd, name) == cwd + [name]
  {
    SplitSegment(name, "");
    SplitNothing();
    assert name + "" == name && [""][0] == "" && [""][1..] == [];
    assert Split(name) == [name];
    hide Split;
    assert ResolveAll(cwd, [name]) == ResolveAll(Resolve(cwd, name), []);
  }

  /** A relative path leads where its text does behind the working directory's. */
  lemma CleanRelative(cwd: Key, p: string)
    requires IsKey(cwd) && IsRelative(p)
    ensures Clean(cwd, p) == Clean([], Render(cwd) + [SEPARATOR] + p)
  {
    CleanRendered([], cwd);
    assert Render(cwd) != "";
    hide Clean, Render;
    CleanJoined([], Render(cwd), p);
  }

  /** A step down and back up leads nowhere. */
  lemma DownAndUp(cwd: Key, name: string)
    requires IsSegment(name)
    ensures Clean(cwd, name + [SEPARATOR] + "..") == cwd
  {
    hide Clean;
    CleanJoined(cwd, name, "..");
    CleanStep(cwd, name);
    CleanStep(cwd + [name], "..");
    var up := Clean(cwd + [name], "..");
    assert (up + [name])[..|cwd|] == cwd && |up + [name]| == |cwd| + 1;
    assert (up + [name])[..|up|] == up;
  }

  // --- Prefixes --------------------------------------------------------------------------

  lemma {:induction false} RenderConcat(a: Key, b: Key)
    ensures RenderSegments(a + b) == RenderSegments(a) + RenderSegments(b)
  {
    if a == [] {
      assert a + b == b;
    } else {
      assert (a + b)[1..] == a[1..] + b;
      RenderConcat(a[1..], b);
    }
  }

  /** The string test for "below a directory" is the prefix test on segments. */
  lemma PrefixIsBelow(a: Key, b: Key)
    requires IsKey(a) && IsKey(b) && a != []
    ensures Render(a) + [SEPARATOR] <= Render(b) <==> a < b
  {
    hide RenderSegments, IsKey;
    if a < b {
      var rest := b[|a|..];
      assert b == a + rest;
      BelowHasPrefix(a, rest);
    }
    if Render(a) + [SEPARATOR] <= Render(b) {
      var rest := Render(b)[|Render(a)| + 1..];
      assert Render(b) == Render(a) + ([SEPARATOR] + rest);
      PrefixHasBelow(a, b, rest);
    }
  }

  lemma BelowHasPrefix(a: Key, rest: Key)
    requires a != [] && rest != []
    ensures Render(a) + [SEPARATOR] <= Render(a + rest)
  {
    hide RenderSegments;
    RenderConcat(a, rest);
    RenderFirst(rest);
    assert Render(a + rest) == (Render(a) + [SEPARATOR]) + (rest[0] + RenderSegments(rest[1..]));
  }

  lemma PrefixHasBelow(a: Key, b: Key, rest: string)
    requires IsKey(a) && IsKey(b) && a != [] && Render(b) == Render(a) + ([SEPARATOR] + rest)
    ensures a < b
  {
    RenderFirst(a);
    assert |Render(a)| > 0 && |Render(b)| > 1;
    hide RenderSegments, Split, IsKey;
    SplitAppended(a, rest);
    SplitRendered(b);
    var parts := Split(rest);
    assert ([""] + a) + parts == [""] + (a + parts);
    SameAfterFirst("", b, a + parts);
    assert b[..|a|] == a;
  }

  lemma SameAfterFirst(x: string, u: seq<string>, v: seq<string>)
    requires [x] + u == [x] + v
    ensures u == v
  {
    assert ([x] + u)[1..] == u && ([x] + v)[1..] == v;
  }

  lemma {:induction false} SplitAppended(a: Key, rest: string)
    requires IsKey(a)
    ensures Split(RenderSegments(a) + ([SEPARATOR] + rest)) == ([""] + a) + Split(rest)
  {
    hide Split, RenderSegments;
    SplitSeparator(rest);
    if a == [] {
      RenderNothing();
      assert RenderSegments(a) + ([SEPARATOR] + rest) == [SEPARATOR] + rest;
      assert [""] + a == [""];
    } else {
      var inner := RenderSegments(a[1..]) + ([SEPARATOR] + rest);
      SplitAppended(a[1..], rest);
      RenderFirst(a);
      assert RenderSegments(a) + ([SEPARATOR] + rest) == [SEPARATOR] + (a[0] + inner);
      SplitSeparator(a[0] + inner);
      assert IsSegment(a[0]);
      SplitSegment(a[0], inner);
      FirstPart(a[0], a[1..], Split(rest));
      assert [a[0]] + a[1..] == a;
    }
  }

  lemma FirstPart(name: string, a: seq<string>, parts: seq<string>)
    ensures var inner := ([""] + a) + parts;
            [""] + ([name + inner[0]] + inner[1..]) == ([""] + ([name] + a)) + parts
  {
    assert name + "" == name;
  }
}
