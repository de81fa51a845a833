/** Output paths in canonical form: what cleaning a composed path makes of its parts. */
module OutPaths {
  import opened PathKeys

  /** A cleaned path, rooted or relative, segment by segment. */
  datatype Canon = Canon(rooted: bool, segs: seq<string>)

  /** Separators folded. */
  function Fwd(p: string): (r: string)
    ensures |r| == |p|
  {
    seq(|p|, i requires 0 <= i < |p| => if p[i] == '\\' then SEPARATOR else p[i])
  }

  function Parts(p: string): seq<string> {
    Split(Fwd(p))
  }

  /** One more part: ".." takes a segment back, and is kept where a relative path has
      none left to take. */
  function Push(c: Canon, part: string): Canon {
    if part == "" || part == "." then c
    else if part != ".." then c.(segs := c.segs + [part])
    else if c.segs != [] && c.segs[|c.segs| - 1] != ".." then c.(segs := c.segs[..|c.segs| - 1])
    else if c.rooted then c
    else c.(segs := c.segs + [".."])
  }

  function PushAll(c: Canon, parts: seq<string>): Canon
    decreases |parts|
  {
    if parts == [] then c else PushAll(Push(c, parts[0]), parts[1..])
  }

  /** A name, which may hold separators, composed onto a path. */
  function Compose(c: Canon, name: string): Canon {
    PushAll(c, Parts(name))
  }

  function ComposeAll(c: Canon, names: seq<string>): Canon
    decreases |names|
  {
    if names == [] then c else ComposeAll(Compose(c, names[0]), names[1..])
  }

  predicate IsRooted(p: string) {
    p != "" && Fwd(p)[0] == SEPARATOR
  }

  function CanonOf(p: string): Canon {
    Compose(Canon(IsRooted(p), []), p)
  }

  function Joined(names: seq<string>): string {
    if names == [] then ""
    else if |names| == 1 then names[0]
    else names[0] + [SEPARATOR] + Joined(names[1..])
  }

  function Text(c: Canon): string {
    if c.rooted then [SEPARATOR] + Joined(c.segs)
    else if c.segs == [] then "."
    else Joined(c.segs)
  }

  /** The cleaned text of a path. */
  function Cleaned(p: string): string {
    Text(CanonOf(p))
  }

  predicate EndsWithSeparator(s: string) {
    s != "" && s[|s| - 1] == SEPARATOR
  }

  /** A path's text, with a separator at its end where one is wanted. */
  function Ended(text: string, slash: bool): string {
    if slash && !EndsWithSeparator(text) then text + [SEPARATOR] else text
  }

  /** The canonical form of an output path: cleaned, a trailing separator kept. */
  function Canonical(p: string): string {
    Ended(Cleaned(p), EndsWithSeparator(Fwd(p)))
  }

  // --- Composition ------------------------------------------------------------------------

  lemma FwdConcat(a: string, b: string)
    ensures Fwd(a + b) == Fwd(a) + Fwd(b)
  {
  }

  lemma PartsJoin(a: string, b: string)
    ensures Parts(a + [SEPARATOR] + b) == Parts(a) + Parts(b)
  {
    hide Split;
    assert a + [SEPARATOR] + b == a + ([SEPARATOR] + b);
    FwdConcat(a, [SEPARATOR] + b);
    FwdConcat([SEPARATOR], b);
    assert Fwd([SEPARATOR]) == [SEPARATOR];
    SplitJoin(Fwd(a), Fwd(b));
  }

  lemma {:induction false} PushAllConcat(c: Canon, a: seq<string>, b: seq<string>)
    ensures PushAll(c, a + b) == PushAll(PushAll(c, a), b)
    decreases |a|
  {
    hide Push;
    if a == [] {
      assert a + b == b;
    } else {
      assert (a + b)[1..] == a[1..] + b;
      PushAllConcat(Push(c, a[0]), a[1..], b);
    }
  }

  /** Composing a joined path is composing its two halves in turn. */
  lemma ComposeJoin(c: Canon, a: string, b: string)
    ensures Compose(c, a + [SEPARATOR] + b) == Compose(Compose(c, a), b)
  {
    hide Parts, PushAll;
    PartsJoin(a, b);
    PushAllConcat(c, Parts(a), Parts(b));
  }

  lemma ComposeEmpty(c: Canon)
    ensures Compose(c, "") == c
  {
    assert Fwd("") == "";
    assert PushAll(c, [""]) == PushAll(Push(c, ""), [""][1..]);
  }

  lemma {:induction false} ComposeJoined(c: Canon, names: seq<string>)
    ensures Compose(c, Joined(names)) == ComposeAll(c, names)
    decreases |names|
  {
    hide Compose;
    if names == [] {
      ComposeEmpty(c);
    } else if |names| == 1 {
      assert ComposeAll(Compose(c, names[0]), names[1..]) == Compose(c, names[0]);
    } else {
      ComposeJoin(c, names[0], Joined(names[1..]));
      ComposeJoined(Compose(c, names[0]), names[1..]);
    }
  }

  lemma {:induction false} ComposeAllSnoc(c: Canon, names: seq<string>, name: string)
    ensures ComposeAll(c, names + [name]) == Compose(ComposeAll(c, names), name)
    decreases |names|
  {
    hide Compose;
    if names == [] {
      assert names + [name] == [name];
      assert ComposeAll(Compose(c, name), [name][1..]) == Compose(c, name);
    } else {
      assert (names + [name])[1..] == names[1..] + [name];
      ComposeAllSnoc(Compose(c, names[0]), names[1..], name);
    }
  }

  lemma RootedJoin(a: string, b: string)
    requires a != ""
    ensures IsRooted(a + b) == IsRooted(a)
  {
    FwdConcat(a, b);
  }

  // --- Cleaned text means what it says -------------------------------------------------------

  predicate IsPlain(seg: string) {
    seg != "" && seg != "." && SEPARATOR !in seg && '\\' !in seg
  }

  /** What cleaning leaves: plain segments, ".." only where a relative path starts. */
  ghost predicate IsNormal(c: Canon) {
    && (forall i | 0 <= i < |c.segs| :: IsPlain(c.segs[i]))
    && (forall i | 0 <= i < |c.segs| && c.segs[i] == ".." :: !c.rooted && forall j | 0 <= j < i :: c.segs[j] == "..")
  }

  lemma {:induction false} PushAllNormal(c: Canon, parts: seq<string>)
    requires IsNormal(c) && forall i | 0 <= i < |parts| :: SEPARATOR !in parts[i] && '\\' !in parts[i]
    ensures IsNormal(PushAll(c, parts))
    decreases |parts|
  {
    if parts != [] {
      PushNormal(c, parts[0]);
      PushAllNormal(Push(c, parts[0]), parts[1..]);
    }
  }

  lemma PushNormal(c: Canon, part: string)
    requires IsNormal(c) && SEPARATOR !in part && '\\' !in part
    ensures IsNormal(Push(c, part))
  {
  }

  lemma {:induction false} SplitChars(text: string, x: char)
    requires x !in text
    ensures forall i | 0 <= i < |Split(text)| :: x !in Split(text)[i]
  {
    if text != "" {
      SplitChars(text[1..], x);
      var rest := Split(text[1..]);
      if text[0] == SEPARATOR {
        assert forall i | 1 <= i < |Split(text)| :: Split(text)[i] == rest[i - 1];
      } else {
        assert x !in [text[0]] + rest[0];
        assert forall i | 1 <= i < |Split(text)| :: Split(text)[i] == rest[i];
      }
    }
  }

  lemma ComposeNormal(c: Canon, name: string)
    requires IsNormal(c)
    ensures IsNormal(Compose(c, name))
  {
    hide Split, IsNormal;
    SplitParts(Fwd(name));
    SplitChars(Fwd(name), '\\');
    PushAllNormal(c, Parts(name));
  }

  lemma {:induction false} ComposeAllNormal(c: Canon, names: seq<string>)
    requires IsNormal(c)
    ensures IsNormal(ComposeAll(c, names))
    decreases |names|
  {
    hide Compose, IsNormal;
    if names != [] {
      ComposeNormal(c, names[0]);
      ComposeAllNormal(Compose(c, names[0]), names[1..]);
    }
  }

  lemma CanonOfNormal(p: string)
    ensures IsNormal(CanonOf(p))
  {
    ComposeNormal(Canon(IsRooted(p), []), p);
  }

  lemma FwdPlain(p: string)
    requires '\\' !in p
    ensures Fwd(p) == p
  {
  }

  lemma {:induction false} JoinedChars(segs: seq<string>)
    requires forall i | 0 <= i < |segs| :: IsPlain(segs[i])
    ensures '\\' !in Joined(segs)
    ensures segs != [] ==> Joined(segs) != "" && segs[0] != "" && Joined(segs)[0] == segs[0][0]
  {
    if segs != [] {
      assert IsPlain(segs[0]);
      JoinedChars(segs[1..]);
    }
  }

  lemma {:induction false} SplitJoined(segs: seq<string>)
    requires segs != [] && forall i | 0 <= i < |segs| :: IsPlain(segs[i])
    ensures Split(Joined(segs)) == segs
  {
    hide Split;
    assert IsPlain(segs[0]);
    SplitNothing();
    SplitSegment(segs[0], "");
    assert segs[0] + "" == segs[0];
    if |segs| == 1 {
      assert segs == [segs[0]];
    } else {
      SplitJoined(segs[1..]);
      assert Joined(segs) == segs[0] + ([SEPARATOR] + Joined(segs[1..]));
      SplitJoin(segs[0], Joined(segs[1..]));
      assert [segs[0]] + segs[1..] == segs;
    }
  }

  /** Pushing a normal path's own segments rebuilds it. */
  lemma {:induction false} PushOwn(c: Canon, i: nat)
    requires IsNormal(c) && i <= |c.segs|
    ensures PushAll(c.(segs := c.segs[..i]), c.segs[i..]) == c
    decreases |c.segs| - i
  {
    if i == |c.segs| {
      assert c.segs[..i] == c.segs;
    } else {
      assert IsPlain(c.segs[i]);
      var at := c.(segs := c.segs[..i]);
      assert c.segs[..i] + [c.segs[i]] == c.segs[..i + 1];
      assert Push(at, c.segs[i]) == c.(segs := c.segs[..i + 1]);
      assert c.segs[i..][1..] == c.segs[i + 1..];
      PushOwn(c, i + 1);
    }
  }

  /** Cleaning is idempotent: a cleaned text stands for the path it was made from. */
  lemma CanonOfText(c: Canon)
    requires IsNormal(c)
    ensures Text(c) != "" && CanonOf(Text(c)) == c
  {
    JoinedChars(c.segs);
    FwdPlain(Text(c));
    PushOwn(c, 0);
    assert c.segs[0..] == c.segs && c.segs[..0] == [];
    if c.segs == [] {
      NoSegments(c);
    } else {
      assert IsPlain(c.segs[0]);
      SplitJoined(c.segs);
      if c.rooted {
        SplitSeparator(Joined(c.segs));
        assert ([""] + c.segs)[1..] == c.segs;
      }
    }
  }

  lemma NoSegments(c: Canon)
    requires c.segs == []
    ensures CanonOf(Text(c)) == c
  {
    if c.rooted {
      assert Text(c) == [SEPARATOR] + "" && Fwd(Text(c)) == Text(c);
      SplitSeparator("");
      assert PushAll(c, ["", ""]) == PushAll(Push(c, ""), ["", ""][1..]) == PushAll(c, [""]) == PushAll(Push(c, ""), [""][1..]);
    } else {
      assert Text(c) == "." + "" && Fwd(Text(c)) == Text(c);
      SplitSegment(".", "");
      assert PushAll(c, ["."]) == PushAll(Push(c, "."), ["."][1..]);
    }
  }

  // --- Single steps ----------------------------------------------------------------------------

  lemma PartsOfPlain(name: string)
    requires SEPARATOR !in name && '\\' !in name
    ensures Parts(name) == [name]
  {
    FwdPlain(name);
    SplitSegment(name, "");
    SplitNothing();
    assert name + "" == name && [""][0] == "" && [""][1..] == [];
  }

  lemma ComposePart(c: Canon, name: string)
    requires SEPARATOR !in name && '\\' !in name
    ensures Compose(c, name) == Push(c, name)
  {
    PartsOfPlain(name);
    hide Parts, Push;
    assert PushAll(Push(c, name), [name][1..]) == Push(c, name);
  }

  /** A plain name leads one segment down, and a step up from there leads back. */
  lemma ComposePlain(c: Canon, name: string)
    requires IsPlain(name) && name != ".."
    ensures Compose(c, name) == Canon(c.rooted, c.segs + [name])
    ensures Compose(Compose(c, name), "..") == c
  {
    ComposePart(c, name);
    ComposePart(Compose(c, name), "..");
    var down := Canon(c.rooted, c.segs + [name]);
    assert down.segs[|down.segs| - 1] == name && down.segs[..|c.segs|] == c.segs;
  }

  /** A step up from a root stays there; where a relative path has nothing but steps up,
      it is kept. A dot and an empty name lead nowhere. */
  lemma ComposeUp(c: Canon, ups: nat)
    ensures c == Canon(true, []) ==> Compose(c, "..") == c
    ensures c == Canon(false, seq(ups, _ => "..")) ==> Compose(c, "..") == Canon(false, seq(ups + 1, _ => ".."))
    ensures Compose(c, ".") == c && Compose(c, "") == c
  {
    ComposePart(c, "..");
    ComposePart(c, ".");
    ComposeEmpty(c);
    assert seq(ups, _ => "..") + [".."] == seq(ups + 1, _ => "..");
  }

  /** Either separator parts a name. */
  lemma SeparatorsAreAlike(c: Canon, a: string, b: string)
    ensures Compose(c, a + "\\" + b) == Compose(c, a + "/" + b) == Compose(Compose(c, a), b)
  {
    ComposeJoin(c, a, b);
    assert Fwd(a + "\\" + b) == Fwd(a + "/" + b);
    assert a + [SEPARATOR] + b == a + "/" + b;
  }

  // --- The separator at the end --------------------------------------------------------------------

  /** Cleaning leaves no separator at the end, but for the root. */
  lemma {:induction false} JoinedEnds(segs: seq<string>)
    requires segs != [] && forall i | 0 <= i < |segs| :: IsPlain(segs[i])
    ensures Joined(segs) != "" && !EndsWithSeparator(Joined(segs))
  {
    assert IsPlain(segs[0]);
    if |segs| > 1 {
      JoinedEnds(segs[1..]);
      EndOf(segs[0] + [SEPARATOR], Joined(segs[1..]));
    }
  }

  lemma EndOf(a: string, b: string)
    requires b != ""
    ensures EndsWithSeparator(a + b) == EndsWithSeparator(b)
  {
  }

  lemma NormalEnds(c: Canon)
    requires IsNormal(c)
    ensures EndsWithSeparator(Text(c)) <==> Text(c) == "/"
    ensures c.segs != [] ==> !EndsWithSeparator(Text(c))
  {
    if c.segs != [] {
      JoinedEnds(c.segs);
      EndOf([SEPARATOR], Joined(c.segs));
      JoinedChars(c.segs);
    }
  }

  /** The canonical form ends with a separator exactly when the path did, or is the root;
      and it stands for the same place as the path. */
  lemma CanonicalEnds(p: string)
    ensures EndsWithSeparator(Canonical(p))
            <==> (p != "" && (p[|p| - 1] == '/' || p[|p| - 1] == '\\')) || Cleaned(p) == "/"
    ensures CanonOf(Canonical(p)) == CanonOf(p)
  {
    CanonOfNormal(p);
    var c := CanonOf(p);
    NormalEnds(c);
    CanonOfText(c);
    hide CanonOf, IsNormal, Text;
    var text := Text(c);
    if Canonical(p) != text {
      CanonOfSlash(text);
    }
  }

  lemma CanonOfSlash(text: string)
    requires text != ""
    ensures CanonOf(text + [SEPARATOR]) == CanonOf(text)
  {
    RootedJoin(text, [SEPARATOR]);
    var c := Canon(IsRooted(text), []);
    hide Compose, IsRooted;
    assert text + [SEPARATOR] + "" == text + [SEPARATOR];
    ComposeJoin(c, text, "");
    ComposeEmpty(Compose(c, text));
  }

  // --- Names that stay inside -------------------------------------------------------------------

  /** No segment of the name is "..". */
  ghost predicate StaysInside(name: string) {
    ".." !in Parts(name)
  }

  lemma {:induction false} PushAllStays(c: Canon, parts: seq<string>)
    requires ".." !in parts
    ensures c.rooted == PushAll(c, parts).rooted && c.segs <= PushAll(c, parts).segs
    decreases |parts|
  {
    if parts != [] {
      PushAllStays(Push(c, parts[0]), parts[1..]);
    }
  }

  /** Names without ".." only ever lead further down. */
  lemma {:induction false} ComposeAllStays(c: Canon, names: seq<string>)
    requires forall i | 0 <= i < |names| :: StaysInside(names[i])
    ensures c.rooted == ComposeAll(c, names).rooted && c.segs <= ComposeAll(c, names).segs
    decreases |names|
  {
    if names != [] {
      PushAllStays(c, Parts(names[0]));
      ComposeAllStays(Compose(c, names[0]), names[1..]);
    }
  }
}
