/** Where the merge baseline of an output file is kept: which files count as inside the
    output folder, and when two of them share a baseline. */
module Baselines {
  import opened PathKeys
  import opened OutPaths

  const META := ".jostraca"
  const GENERATED := "generated"

  // --- The code's own tests, on texts -------------------------------------------------------

  /** Whether p resolves inside the output folder. */
  predicate WithinFolder(folder: string, p: string) {
    if folder == "." then
      && !(p != "" && p[0] == SEPARATOR)
      && Cleaned(p) != ".." && !(".." + [SEPARATOR] <= Cleaned(p))
    else if folder == [SEPARATOR] then p != "" && p[0] == SEPARATOR
    else p == folder || folder + [SEPARATOR] <= p
  }

  function TrimLeft(s: string): string {
    if s != "" && s[0] == SEPARATOR then TrimLeft(s[1..]) else s
  }

  /** The path with the output folder's prefix off. */
  function Relative(folder: string, path: string): string {
    var p := Fwd(path);
    if folder == "." then
      if "." + [SEPARATOR] <= p then TrimLeft(p[1..]) else p
    else if folder == [SEPARATOR] then TrimLeft(p)
    else if p == folder then ""
    else if folder + [SEPARATOR] <= p then TrimLeft(p[|folder|..])
    else p
  }

  /** The folder baselines are kept under. */
  function DuplicateFolder(folder: string): string {
    Cleaned(folder + [SEPARATOR] + META + [SEPARATOR] + GENERATED)
  }

  /** The clamp: the baseline path, unless it leads out of the baseline folder. */
  predicate Clamped(folder: string, dup: string) {
    var root, cleaned := DuplicateFolder(folder), Cleaned(dup);
    cleaned != root && !(root + [SEPARATOR] <= cleaned)
  }

  function BaselinePath(folder: string, p: string): string {
    DuplicateFolder(folder) + [SEPARATOR] + Relative(folder, p)
  }

  // --- The same on segments --------------------------------------------------------------------

  /** The text of an output path. */
  function TextOf(c: Canon, slash: bool): string {
    Ended(Text(c), slash)
  }

  /** The folder's segments come first; below the working directory, no step upwards. */
  predicate Inside(f: Canon, c: Canon) {
    && c.rooted == f.rooted && f.segs <= c.segs
    && (f.segs == [] && !f.rooted && c.segs != [] ==> c.segs[0] != "..")
  }

  function Below(f: Canon): Canon {
    f.(segs := f.segs + [META, GENERATED])
  }

  /** Where a file's baseline goes. */
  function BaselineOf(f: Canon, c: Canon): Canon
    requires f.segs <= c.segs
  {
    PushAll(Below(f), c.segs[|f.segs|..])
  }

  // --- Texts and their parts ----------------------------------------------------------------------

  lemma {:induction false} JoinedSplit(s: string)
    ensures Joined(Split(s)) == s
  {
    if s != "" {
      JoinedSplit(s[1..]);
      var rest := Split(s[1..]);
      if s[0] == SEPARATOR {
        assert Joined([""] + rest) == "" + [SEPARATOR] + Joined(rest) by { assert ([""] + rest)[1..] == rest; }
        assert "" + [SEPARATOR] + Joined(rest) == [s[0]] + s[1..];
      } else {
        JoinedHead(s[0], rest);
      }
    }
  }

  lemma JoinedHead(x: char, rest: seq<string>)
    requires rest != []
    ensures Joined([[x] + rest[0]] + rest[1..]) == [x] + Joined(rest)
  {
    var all := [[x] + rest[0]] + rest[1..];
    assert all[1..] == rest[1..];
    if |rest| > 1 {
      assert [x] + rest[0] + [SEPARATOR] + Joined(rest[1..]) == [x] + (rest[0] + [SEPARATOR] + Joined(rest[1..]));
    }
  }

  lemma {:induction false} JoinedConcat(a: seq<string>, b: seq<string>)
    requires a != [] && b != []
    ensures Joined(a + b) == Joined(a) + [SEPARATOR] + Joined(b)
  {
    assert (a + b)[1..] == a[1..] + b;
    if |a| > 1 {
      JoinedConcat(a[1..], b);
      assert a[0] + [SEPARATOR] + (Joined(a[1..]) + [SEPARATOR] + Joined(b))
          == (a[0] + [SEPARATOR] + Joined(a[1..])) + [SEPARATOR] + Joined(b);
    }
  }

  /** A text continues another past a separator exactly when its parts continue the
      other's parts; what follows the separator is then the remaining parts, joined. */
  lemma PrefixByParts(a: string, b: string)
    ensures a + [SEPARATOR] <= b <==> Split(a) < Split(b)
    ensures a == b <==> Split(a) == Split(b)
    ensures a + [SEPARATOR] <= b ==> b[|a| + 1..] == Joined(Split(b)[|Split(a)|..])
  {
    hide Split, Joined;
    JoinedSplit(a);
    JoinedSplit(b);
    if a + [SEPARATOR] <= b {
      var rest := b[|a| + 1..];
      assert b == a + ([SEPARATOR] + rest);
      SplitJoin(a, rest);
      JoinedSplit(rest);
      assert Split(b)[|Split(a)|..] == Split(rest);
    }
    if Split(a) < Split(b) {
      var rest := Split(b)[|Split(a)|..];
      assert Split(b) == Split(a) + rest;
      JoinedConcat(Split(a), rest);
    }
  }

  function Lead(c: Canon): seq<string> {
    if c.rooted then [""] else []
  }

  function Tail(slash: bool): seq<string> {
    if slash then [""] else []
  }

  lemma SplitTextOf(c: Canon, slash: bool)
    requires IsNormal(c)
    ensures '\\' !in TextOf(c, slash) && TextOf(c, slash) != ""
    ensures Split(TextOf(c, slash))
         == if c.segs != [] then Lead(c) + c.segs + Tail(slash)
            else if c.rooted then ["", ""]
            else ["."] + Tail(slash)
  {
    JoinedChars(c.segs);
    hide Split, IsNormal;
    SplitNothing();
    if c.segs == [] {
      SplitSeparator("");
      SplitSegment(".", "");
      assert [SEPARATOR] + "" == [SEPARATOR] && "." + "" == ".";
      SplitJoin(".", "");
      assert "." + ([SEPARATOR] + "") == "." + [SEPARATOR];
    } else {
      NormalEnds(c);
      SplitText(c);
      SplitJoin(Text(c), "");
      assert Text(c) + ([SEPARATOR] + "") == Text(c) + [SEPARATOR];
      assert Lead(c) + c.segs + [] == Lead(c) + c.segs;
    }
  }

  lemma SplitText(c: Canon)
    requires IsNormal(c) && c.segs != []
    ensures Split(Text(c)) == Lead(c) + c.segs
  {
    hide Split, Joined;
    SplitJoined(c.segs);
    SplitSeparator(Joined(c.segs));
    assert [] + c.segs == c.segs;
  }

  lemma FirstChar(c: Canon, slash: bool)
    requires IsNormal(c)
    ensures TextOf(c, slash) != "" && ((TextOf(c, slash)[0] == SEPARATOR) <==> c.rooted)
  {
    JoinedChars(c.segs);
    if c.segs != [] {
      assert IsPlain(c.segs[0]);
      assert c.segs[0][0] != SEPARATOR;
    }
  }

  lemma CanonOfTextOf(c: Canon, slash: bool)
    requires IsNormal(c)
    ensures CanonOf(TextOf(c, slash)) == c
  {
    hide Text, Compose, IsNormal;
    CanonOfText(c);
    if TextOf(c, slash) != Text(c) {
      assert Text(c) + [SEPARATOR] == Text(c) + [SEPARATOR] + "";
      RootedJoin(Text(c), [SEPARATOR]);
      ComposeJoin(Canon(IsRooted(Text(c)), []), Text(c), "");
      ComposeEmpty(c);
    }
  }

  // --- Within the folder ---------------------------------------------------------------------------

  lemma DotText(f: Canon)
    requires IsNormal(f)
    ensures Text(f) == "." <==> !f.rooted && f.segs == []
    ensures Text(f) == [SEPARATOR] <==> f.rooted && f.segs == []
  {
    JoinedChars(f.segs);
    if f.segs != [] {
      assert IsPlain(f.segs[0]);
      if |f.segs| > 1 {
        assert Joined(f.segs) == f.segs[0] + [SEPARATOR] + Joined(f.segs[1..]);
        assert |Joined(f.segs)| > 1;
      } else {
        assert Joined(f.segs) == f.segs[0];
        assert SEPARATOR in [SEPARATOR];
      }
    }
  }

  lemma PrefixSplit(x: seq<string>, u: seq<string>, v: seq<string>)
    ensures x + u <= x + v <==> u <= v
  {
    assert (x + u)[|x|..] == u && (x + v)[|x|..] == v;
    if u <= v {
      assert x + v == (x + u) + v[|u|..];
    }
    if x + u <= x + v {
      var rest := (x + v)[|x + u|..];
      assert x + v == x + (u + rest);
      assert (x + (u + rest))[|x|..] == u + rest;
    }
  }

  lemma LastPart(f: seq<string>, c: seq<string>, tail: seq<string>)
    requires f <= c + tail && |f| > |c| && (tail == [] || tail == [""])
    ensures "" in f
  {
    assert f[|c|] == (c + tail)[|c|] == tail[0];
  }

  lemma FirstPart(f: seq<string>, c: seq<string>, froot: bool, tail: seq<string>)
    requires f != [] && (tail == [] || tail == [""])
    requires (if froot then [""] else []) + f <= (if froot then [] else [""]) + (c + tail)
    ensures "" in f || "" in c
  {
    if froot {
      var small := [""] + f;
      assert small[0] == "" && [] + (c + tail) == c + tail;
      assert small[0] == (c + tail)[0] && |small| > 1;
      assert (c + tail)[0] == c[0];
    } else {
      assert f[0] == ([] + f)[0] == ([""] + (c + tail))[0];
    }
  }

  /** Blank parts at either end do not disturb a prefix test on parts that are not. */
  lemma BlankEnds(f: seq<string>, c: seq<string>, tail: seq<string>)
    requires f != [] && "" !in f && (tail == [] || tail == [""])
    ensures f <= c + tail <==> f <= c
  {
    if f <= c + tail {
      if |f| > |c| {
        LastPart(f, c, tail);
      }
      assert f == (c + tail)[..|f|] == c[..|f|];
    }
    if f <= c {
      assert c + tail == f + (c[|f|..] + tail);
    }
  }

  lemma LeadAgrees(f: seq<string>, c: seq<string>, froot: bool, croot: bool, tail: seq<string>)
    requires f != [] && "" !in f && "" !in c && (tail == [] || tail == [""])
    ensures (if froot then [""] else []) + f <= (if croot then [""] else []) + c + tail <==> froot == croot && f <= c
  {
    var lf, lc := if froot then [""] else [], if croot then [""] else [];
    assert f[0] in f;
    assert lc + c + tail == lc + (c + tail);
    if froot == croot {
      PrefixSplit(lf, f, c + tail);
      BlankEnds(f, c, tail);
    } else if lf + f <= lc + (c + tail) {
      FirstPart(f, c, froot, tail);
    }
  }

  lemma DotPart(f: seq<string>)
    requires f != [] && f <= ["."]
    ensures "." in f
  {
    assert f[0] == ".";
  }

  lemma PlainSegs(c: Canon)
    requires IsNormal(c)
    ensures "" !in c.segs && "." !in c.segs
  {
    assert forall i | 0 <= i < |c.segs| :: IsPlain(c.segs[i]);
  }

  /** For a folder with a name of its own the test compares segments. */
  lemma NamedFolder(f: Canon, c: Canon, slash: bool)
    requires IsNormal(f) && IsNormal(c) && f.segs != []
    ensures Split(Text(f)) <= Split(TextOf(c, slash)) <==> c.rooted == f.rooted && f.segs <= c.segs
  {
    SplitText(f);
    SplitTextOf(c, slash);
    PlainSegs(f);
    PlainSegs(c);
    hide Split, Text, IsNormal;
    if c.segs != [] {
      LeadAgrees(f.segs, c.segs, f.rooted, c.rooted, Tail(slash));
    } else {
      BareFolder(f.segs, f.rooted, c.rooted, slash);
    }
  }

  lemma BareFolder(f: seq<string>, froot: bool, croot: bool, slash: bool)
    requires f != [] && "" !in f && "." !in f
    ensures !((if froot then [""] else []) + f <= if croot then ["", ""] else ["."] + Tail(slash))
  {
    if croot {
      LeadAgrees(f, [], froot, true, [""]);
      assert [""] + [] + [""] == ["", ""];
    } else {
      LeadAgrees(f, ["."], froot, false, Tail(slash));
      assert [] + ["."] + Tail(slash) == ["."] + Tail(slash);
      if f <= ["."] {
        DotPart(f);
      }
    }
  }

  /** The text test says what it means, for every canonical folder and output path. */
  lemma WithinMeans(f: Canon, c: Canon, slash: bool)
    requires IsNormal(f) && IsNormal(c)
    ensures WithinFolder(Text(f), TextOf(c, slash)) <==> Inside(f, c)
  {
    var folder, p := Text(f), TextOf(c, slash);
    DotText(f);
    FirstChar(c, slash);
    if f.segs == [] {
      if !f.rooted {
        CanonOfTextOf(c, slash);
        UpwardText(c);
      }
    } else {
      NamedFolder(f, c, slash);
      PrefixByParts(folder, p);
    }
  }

  /** A relative path's text starts upwards when its first segment does. */
  lemma UpwardText(c: Canon)
    requires IsNormal(c)
    ensures !c.rooted ==> (Text(c) == ".." || ".." + [SEPARATOR] <= Text(c) <==> c.segs != [] && c.segs[0] == "..")
  {
    if !c.rooted {
      var up := Canon(false, [".."]);
      assert IsNormal(up) && Text(up) == "..";
      NamedFolder(up, c, false);
      PrefixByParts("..", Text(c));
      assert TextOf(c, false) == Text(c);
    }
  }

  // --- The baseline of a file ---------------------------------------------------------------------

  lemma {:induction false} TrimmedStart(s: string)
    requires s == "" || s[0] != SEPARATOR
    ensures TrimLeft([SEPARATOR] + s) == s
  {
    assert ([SEPARATOR] + s)[1..] == s;
  }

  lemma BelowNormal(f: Canon)
    requires IsNormal(f)
    ensures IsNormal(Below(f))
  {
    assert IsPlain(META) && IsPlain(GENERATED);
  }

  lemma BelowComposed(f: Canon)
    ensures Compose(Compose(f, META), GENERATED) == Below(f)
  {
    hide Compose;
    ComposePlain(f, META);
    ComposePlain(f.(segs := f.segs + [META]), GENERATED);
    assert f.segs + [META] + [GENERATED] == f.segs + [META, GENERATED];
  }

  /** Two names composed, one after the other, onto a cleaned text. */
  lemma TwoNames(f: Canon, a: string, b: string)
    requires IsNormal(f)
    ensures CanonOf(Text(f) + [SEPARATOR] + a + [SEPARATOR] + b) == Compose(Compose(f, a), b)
  {
    var folder := Text(f);
    CanonOfText(f);
    hide Text, Compose, IsNormal, IsRooted;
    var rest := a + [SEPARATOR] + b;
    assert folder + [SEPARATOR] + a + [SEPARATOR] + b == folder + [SEPARATOR] + rest == folder + ([SEPARATOR] + rest);
    RootedJoin(folder, [SEPARATOR] + rest);
    ComposeJoin(Canon(IsRooted(folder), []), folder, rest);
    ComposeJoin(f, a, b);
  }

  lemma FolderOf(f: Canon)
    requires IsNormal(f)
    ensures DuplicateFolder(Text(f)) == Text(Below(f)) && IsNormal(Below(f))
  {
    BelowNormal(f);
    BelowComposed(f);
    TwoNames(f, META, GENERATED);
    hide Text, Compose, IsNormal, Below, CanonOf;
  }

  lemma ComposePlain(c: Canon, name: string)
    requires IsPlain(name) && name != ".."
    ensures Compose(c, name) == c.(segs := c.segs + [name])
  {
    hide Split;
    FwdPlain(name);
    SplitNothing();
    SplitSegment(name, "");
    assert name + "" == name && Parts(name) == [name];
    assert PushAll(c, [name]) == PushAll(Push(c, name), [name][1..]);
  }

  lemma PushBlank(d: Canon, segs: seq<string>, slash: bool)
    ensures PushAll(d, segs + Tail(slash)) == PushAll(d, segs)
  {
    PushAllConcat(d, segs, Tail(slash));
    var r := PushAll(d, segs);
    if slash {
      assert PushAll(r, [""]) == PushAll(Push(r, ""), [""][1..]);
    }
  }

  ghost predicate ArePlain(segs: seq<string>) {
    forall i | 0 <= i < |segs| :: IsPlain(segs[i])
  }

  lemma SplitRest(segs: seq<string>, slash: bool)
    requires ArePlain(segs) && segs + Tail(slash) != []
    ensures var text := Joined(segs + Tail(slash));
            Split(text) == segs + Tail(slash) && '\\' !in text && (text == "" || text[0] != SEPARATOR)
  {
    JoinedChars(segs);
    hide Split;
    if segs == [] {
      SplitNothing();
      assert segs + Tail(slash) == [""];
    } else {
      assert IsPlain(segs[0]) && segs[0][0] in segs[0];
      SplitJoined(segs);
      assert segs + [] == segs;
      if slash {
        JoinedConcat(segs, [""]);
        SplitJoin(Joined(segs), "");
        SplitNothing();
        assert Joined(segs) + [SEPARATOR] + "" == Joined(segs) + ([SEPARATOR] + "");
      }
    }
  }

  /** Parts that follow a separator, composed. */
  lemma RestComposed(segs: seq<string>, slash: bool, d: Canon)
    requires ArePlain(segs) && segs + Tail(slash) != []
    ensures Compose(d, TrimLeft([SEPARATOR] + Joined(segs + Tail(slash)))) == PushAll(d, segs)
  {
    hide Split, Joined, PushAll, ArePlain, Tail;
    SplitRest(segs, slash);
    var text := Joined(segs + Tail(slash));
    TrimmedStart(text);
    FwdPlain(text);
    PushBlank(d, segs, slash);
  }

  lemma SuffixPlain(c: Canon, n: nat)
    requires IsNormal(c) && n <= |c.segs|
    ensures ArePlain(c.segs[n..])
  {
  }

  lemma SplitDot()
    ensures Split(".") == ["."]
  {
    hide Split;
    SplitSegment(".", "");
    SplitNothing();
    assert "." + "" == ".";
  }

  lemma BareRelative(slash: bool, d: Canon)
    ensures Compose(d, Relative(".", TextOf(Canon(false, []), slash))) == d
    ensures Compose(d, Relative([SEPARATOR], TextOf(Canon(true, []), slash))) == d
  {
    hide Split, Compose;
    ComposeEmpty(d);
    TrimmedStart("");
    assert [SEPARATOR] + "" == [SEPARATOR];
    FwdPlain([SEPARATOR]);
    FwdPlain("." + [SEPARATOR]);
    FwdPlain(".");
    if slash {
      assert ("." + [SEPARATOR])[1..] == [SEPARATOR];
    } else {
      ComposeDot(d);
    }
  }

  lemma ComposeDot(d: Canon)
    ensures Compose(d, ".") == d
  {
    SplitDot();
    FwdPlain(".");
    hide Split;
    assert PushAll(d, ["."]) == PushAll(Push(d, "."), ["."][1..]);
  }

  /** In the working directory an output path is its own relative path. */
  lemma DotRelative(p: string, segs: seq<string>, slash: bool, d: Canon)
    requires Split(p) == segs + Tail(slash) && segs != [] && "." !in segs && '\\' !in p
    ensures Compose(d, Relative(".", p)) == PushAll(d, segs)
  {
    hide Split, PushAll;
    FwdPlain(p);
    SplitDot();
    PrefixByParts(".", p);
    assert Split(p)[0] == segs[0] && segs[0] in segs;
    PushBlank(d, segs, slash);
  }

  lemma RootRelative(p: string, segs: seq<string>, slash: bool, d: Canon)
    requires Split(p) == [""] + (segs + Tail(slash)) && segs != [] && ArePlain(segs) && '\\' !in p
    ensures Compose(d, Relative([SEPARATOR], p)) == PushAll(d, segs)
  {
    hide Split, PushAll, Compose, ArePlain, TrimLeft;
    FwdPlain(p);
    SplitNothing();
    PrefixByParts("", p);
    assert "" + [SEPARATOR] <= p;
    assert p == [SEPARATOR] + p[1..];
    RestComposed(segs, slash, d);
  }

  /** At the working directory and at the root the whole path is what remains. */
  lemma WholeRelative(c: Canon, slash: bool, d: Canon)
    requires IsNormal(c)
    ensures Compose(d, Relative(if c.rooted then [SEPARATOR] else ".", TextOf(c, slash))) == PushAll(d, c.segs)
  {
    if c.segs == [] {
      assert c == Canon(c.rooted, []);
      BareRelative(slash, d);
      PushNone(d);
    } else {
      SplitTextOf(c, slash);
      SuffixPlain(c, 0);
      PlainSegs(c);
      hide Split, IsNormal, TextOf, Compose, Relative, PushAll;
      assert c.segs[0..] == c.segs;
      if c.rooted {
        assert Split(TextOf(c, slash)) == [""] + (c.segs + Tail(slash));
        RootRelative(TextOf(c, slash), c.segs, slash, d);
      } else {
        assert Split(TextOf(c, slash)) == c.segs + Tail(slash);
        DotRelative(TextOf(c, slash), c.segs, slash, d);
      }
    }
  }

  lemma NamedParts(f: Canon, c: Canon, slash: bool)
    requires IsNormal(f) && IsNormal(c) && Inside(f, c) && f.segs != []
    ensures Split(TextOf(c, slash)) == Split(Text(f)) + (c.segs[|f.segs|..] + Tail(slash))
  {
    hide Split, IsNormal, Text, TextOf, Tail;
    assert 0 < |f.segs| <= |c.segs|;
    SplitTextOf(c, slash);
    SplitText(f);
    MorePieces(Lead(f), f.segs, c.segs, Tail(slash));
  }

  lemma MorePieces(lead: seq<string>, f: seq<string>, c: seq<string>, tail: seq<string>)
    requires f <= c
    ensures lead + c + tail == (lead + f) + (c[|f|..] + tail)
  {
    assert c == f + c[|f|..];
  }

  lemma NamedRelative(f: Canon, c: Canon, slash: bool, d: Canon)
    requires IsNormal(f) && IsNormal(c) && Inside(f, c) && f.segs != []
    ensures Compose(d, Relative(Text(f), TextOf(c, slash))) == PushAll(d, c.segs[|f.segs|..])
  {
    NamedParts(f, c, slash);
    DotText(f);
    SplitTextOf(c, slash);
    SuffixPlain(c, |f.segs|);
    hide IsNormal, Text, TextOf, Relative;
    RestRelative(Text(f), TextOf(c, slash), c.segs[|f.segs|..], slash, d);
  }

  lemma RestRelative(folder: string, p: string, rest: seq<string>, slash: bool, d: Canon)
    requires folder != "." && folder != [SEPARATOR] && '\\' !in p
    requires Split(p) == Split(folder) + (rest + Tail(slash)) && ArePlain(rest)
    ensures Compose(d, Relative(folder, p)) == PushAll(d, rest)
  {
    hide Split, PushAll, Compose, Relative, ArePlain;
    PrefixByParts(folder, p);
    if rest + Tail(slash) == [] {
      assert Split(p) == Split(folder) && rest == [];
      SameRelative(folder);
      ComposeEmpty(d);
      PushNone(d);
    } else {
      assert Split(p)[|Split(folder)|..] == rest + Tail(slash);
      LongerRelative(folder, p);
      RestComposed(rest, slash, d);
    }
  }

  lemma SameRelative(folder: string)
    requires folder != "." && folder != [SEPARATOR] && '\\' !in folder
    ensures Relative(folder, folder) == ""
  {
    FwdPlain(folder);
  }

  lemma LongerRelative(folder: string, p: string)
    requires folder != "." && folder != [SEPARATOR] && '\\' !in p && folder + [SEPARATOR] <= p
    ensures Relative(folder, p) == TrimLeft([SEPARATOR] + p[|folder| + 1..])
  {
    FwdPlain(p);
    assert p[|folder|..] == [SEPARATOR] + p[|folder| + 1..];
  }

  lemma PushNone(d: Canon)
    ensures PushAll(d, []) == d
  {
  }

  /** The relative path of a file inside the folder stands for the segments below it. */
  lemma RelativeMeans(f: Canon, c: Canon, slash: bool, d: Canon)
    requires IsNormal(f) && IsNormal(c) && Inside(f, c)
    ensures Compose(d, Relative(Text(f), TextOf(c, slash))) == PushAll(d, c.segs[|f.segs|..])
  {
    DotText(f);
    assert c.segs[0..] == c.segs;
    hide Text, TextOf, IsNormal, Relative, Compose, PushAll;
    if f.segs != [] {
      NamedRelative(f, c, slash, d);
    } else {
      WholeRelative(c, slash, d);
    }
  }

  /** A path's text, composed onto another path. */
  lemma TextComposed(c: Canon, slash: bool, d: Canon)
    requires IsNormal(c)
    ensures Compose(d, TextOf(c, slash)) == PushAll(d, c.segs)
  {
    SplitTextOf(c, slash);
    FwdPlain(TextOf(c, slash));
    hide Split, Text, TextOf, IsNormal;
    if c.segs == [] {
      PushNone(d);
      PushNothing(d, slash);
    } else {
      PushAllConcat(d, Lead(c), c.segs + Tail(slash));
      assert Lead(c) + c.segs + Tail(slash) == Lead(c) + (c.segs + Tail(slash));
      PushNone(d);
      PushNothing(d, slash);
      PushBlank(d, c.segs, slash);
    }
  }

  lemma PushNothing(d: Canon, slash: bool)
    ensures PushAll(d, [""]) == d && PushAll(d, ["", ""]) == d && PushAll(d, ["."] + Tail(slash)) == d
  {
    assert [""][1..] == [] && ["", ""][1..] == [""];
    assert (["."] + Tail(slash))[1..] == Tail(slash);
  }

  /** A path outside the folder is its own relative path. */
  lemma OutsideRelative(f: Canon, c: Canon, slash: bool)
    requires IsNormal(f) && IsNormal(c) && !Inside(f, c)
    ensures Relative(Text(f), TextOf(c, slash)) == TextOf(c, slash)
  {
    var folder, p := Text(f), TextOf(c, slash);
    DotText(f);
    WithinMeans(f, c, slash);
    FirstChar(c, slash);
    SplitTextOf(c, slash);
    FwdPlain(p);
    PlainSegs(c);
    hide IsNormal, Text, TextOf, Split;
    if !f.rooted && f.segs == [] {
      assert Inside(f, Canon(false, []));
      SplitDot();
      PrefixByParts(".", p);
      if !c.rooted {
        assert c.segs != [] && c.segs[0] in c.segs;
        assert Split(p)[0] == c.segs[0];
      }
    }
  }

  /** Where the baseline of any file is looked up or kept. */
  function BaselineAt(f: Canon, c: Canon): Canon {
    PushAll(Below(f), if Inside(f, c) then c.segs[|f.segs|..] else c.segs)
  }

  /** The baseline of a file inside the folder is at its remaining segments, below the
      baseline folder; that of a file outside it is at all of its segments. */
  lemma BaselineMeans(f: Canon, c: Canon, slash: bool)
    requires IsNormal(f) && IsNormal(c)
    ensures CanonOf(BaselinePath(Text(f), TextOf(c, slash))) == BaselineAt(f, c)
    ensures Inside(f, c) ==> BaselineAt(f, c) == BaselineOf(f, c)
  {
    var folder, rel := DuplicateFolder(Text(f)), Relative(Text(f), TextOf(c, slash));
    FolderOf(f);
    CanonOfText(Below(f));
    if Inside(f, c) {
      RelativeMeans(f, c, slash, Below(f));
    } else {
      OutsideRelative(f, c, slash);
      TextComposed(c, slash, Below(f));
    }
    hide Text, TextOf, IsNormal, Relative, Compose, DuplicateFolder, PushAll;
    assert folder + [SEPARATOR] + rel == folder + ([SEPARATOR] + rel);
    RootedJoin(folder, [SEPARATOR] + rel);
    ComposeJoin(Canon(IsRooted(folder), []), folder, rel);
  }

  // --- The clamp, and baselines that collide --------------------------------------------------------

  lemma NormalBaseline(f: Canon, c: Canon)
    requires IsNormal(f) && IsNormal(c) && f.segs <= c.segs
    ensures IsNormal(BaselineOf(f, c))
  {
    FolderOf(f);
    var rest := c.segs[|f.segs|..];
    forall i | 0 <= i < |rest| ensures SEPARATOR !in rest[i] && '\\' !in rest[i] {
      assert rest[i] == c.segs[|f.segs| + i] && IsPlain(c.segs[|f.segs| + i]);
    }
    PushAllNormal(Below(f), rest);
  }

  /** The clamp lets a baseline through exactly when it stays below the baseline folder. */
  lemma ClampMeans(f: Canon, c: Canon, slash: bool)
    requires IsNormal(f) && IsNormal(c) && Inside(f, c)
    ensures !Clamped(Text(f), BaselinePath(Text(f), TextOf(c, slash))) <==> Below(f).segs <= BaselineOf(f, c).segs
  {
    FolderOf(f);
    BaselineMeans(f, c, slash);
    NormalBaseline(f, c);
    var root, at := Below(f), BaselineOf(f, c);
    SameRoot(f, c);
    hide Text, IsNormal, TextOf, BaselinePath, DuplicateFolder, BaselineOf;
    NamedFolder(root, at, false);
    assert TextOf(at, false) == Text(at) by { NoSlash(at); }
    PrefixByParts(Text(root), Text(at));
  }

  lemma NoSlash(c: Canon)
    ensures TextOf(c, false) == Text(c)
  {
  }

  lemma {:induction false} PushKeepsRoot(c: Canon, parts: seq<string>)
    ensures PushAll(c, parts).rooted == c.rooted
    decreases |parts|
  {
    if parts != [] {
      PushKeepsRoot(Push(c, parts[0]), parts[1..]);
    }
  }

  lemma SameRoot(f: Canon, c: Canon)
    requires f.segs <= c.segs
    ensures BaselineOf(f, c).rooted == Below(f).rooted
  {
    PushKeepsRoot(Below(f), c.segs[|f.segs|..]);
  }

  /** The folder does not end in a step upwards. */
  predicate Settled(f: Canon) {
    f.segs == [] || f.segs[|f.segs| - 1] != ".."
  }

  lemma {:induction false} PushPlain(d: Canon, parts: seq<string>)
    requires ArePlain(parts) && ".." !in parts
    ensures PushAll(d, parts) == d.(segs := d.segs + parts)
    decreases |parts|
  {
    if parts == [] {
      assert d.segs + parts == d.segs;
    } else {
      assert IsPlain(parts[0]) && parts[0] in parts;
      PushPlain(d.(segs := d.segs + [parts[0]]), parts[1..]);
      assert d.segs + [parts[0]] + parts[1..] == d.segs + parts;
    }
  }

  lemma NoStepUp(f: Canon, c: Canon)
    requires IsNormal(f) && IsNormal(c) && Inside(f, c) && Settled(f)
    ensures ".." !in c.segs[|f.segs|..] && ArePlain(c.segs[|f.segs|..])
  {
    var n := |f.segs|;
    SuffixPlain(c, n);
    forall i | n <= i < |c.segs| ensures c.segs[i] != ".." {
      if n > 0 {
        assert c.segs[n - 1] == f.segs[n - 1];
      }
      assert !f.rooted && n == 0 ==> c.segs[0] != "..";
    }
  }

  /** No two different files inside the folder share a baseline that is kept. */
  ghost predicate BaselinesAreDistinct(f: Canon) {
    forall c, d | IsNormal(c) && IsNormal(d) && Inside(f, c) && Inside(f, d) ::
      Below(f).segs <= BaselineOf(f, c).segs && BaselineOf(f, c) == BaselineOf(f, d) ==> c == d
  }

  lemma SettledBaselines(f: Canon, c: Canon)
    requires IsNormal(f) && IsNormal(c) && Inside(f, c) && Settled(f)
    ensures BaselineOf(f, c) == Below(f).(segs := Below(f).segs + c.segs[|f.segs|..])
  {
    NoStepUp(f, c);
    PushPlain(Below(f), c.segs[|f.segs|..]);
  }

  lemma ExtendNormal(f: Canon, more: seq<string>)
    requires IsNormal(f) && ArePlain(more) && (forall i | 0 < i < |more| :: more[i] != "..")
    requires more != [] && more[0] == ".." ==> !f.rooted && forall j | 0 <= j < |f.segs| :: f.segs[j] == ".."
    ensures IsNormal(f.(segs := f.segs + more))
  {
  }

  /** Two files inside a folder made of steps upwards whose baselines are one. */
  lemma UpwardClash(f: Canon) returns (c: Canon, d: Canon)
    requires IsNormal(f) && !Settled(f)
    ensures IsNormal(c) && IsNormal(d) && Inside(f, c) && Inside(f, d) && c != d
    ensures Below(f).segs <= BaselineOf(f, c).segs && BaselineOf(f, c) == BaselineOf(f, d)
  {
    var more := ["..", GENERATED, "x"];
    c, d := f.(segs := f.segs + ["x"]), f.(segs := f.segs + more);
    assert IsPlain("x") && IsPlain("..") && IsPlain(GENERATED);
    ExtendNormal(f, ["x"]);
    ExtendNormal(f, more);
    hide IsNormal, IsPlain;
    assert c.segs[|f.segs|..] == ["x"] && d.segs[|f.segs|..] == more;
    assert |c.segs| != |d.segs|;
    assert IsPlain("x") && IsPlain(GENERATED);
    UpAndBack(f.(segs := f.segs + [META]), GENERATED, "x");
    assert Below(f).segs == f.segs + [META] + [GENERATED];
  }

  /** Stepping up and back down again. */
  lemma UpAndBack(c: Canon, name: string, file: string)
    requires IsPlain(name) && name != ".." && IsPlain(file) && file != ".."
    ensures var d := c.(segs := c.segs + [name]);
            PushAll(d, [file]) == d.(segs := d.segs + [file]) == PushAll(d, ["..", name, file])
  {
    var d := c.(segs := c.segs + [name]);
    PushPlain(d, [file]);
    PushPlain(c, [name, file]);
    assert ["..", name, file][1..] == [name, file];
    assert d.segs[..|d.segs| - 1] == c.segs;
    assert c.segs + [name, file] == d.segs + [file];
  }

  /** Files keep their baselines apart exactly in folders that do not end in "..". */
  lemma BaselinesApart(f: Canon)
    requires IsNormal(f)
    ensures BaselinesAreDistinct(f) <==> Settled(f)
  {
    if Settled(f) {
      forall c, d | IsNormal(c) && IsNormal(d) && Inside(f, c) && Inside(f, d) && BaselineOf(f, c) == BaselineOf(f, d)
        ensures c == d
      {
        SettledBaselines(f, c);
        SettledBaselines(f, d);
        hide BaselineOf, IsNormal;
        var n := |f.segs|;
        PrefixSplit(Below(f).segs, c.segs[n..], d.segs[n..]);
        PrefixSplit(Below(f).segs, d.segs[n..], c.segs[n..]);
        assert c.segs == f.segs + c.segs[n..] && d.segs == f.segs + d.segs[n..];
      }
    } else {
      var c, d := UpwardClash(f);
    }
  }

  /** The baseline a merge of c looks up is kept for some other file. */
  ghost predicate ReadsAnothers(f: Canon, c: Canon, slash: bool) {
    exists d :: IsNormal(d) && Inside(f, d) && d != c && CanonOf(BaselinePath(Text(f), TextOf(c, slash))) == BaselineOf(f, d)
  }

  lemma BaselineAtNormal(f: Canon, c: Canon)
    requires IsNormal(f) && IsNormal(c)
    ensures IsNormal(BaselineAt(f, c)) && BaselineAt(f, c).rooted == f.rooted
  {
    FolderOf(f);
    var rest := if Inside(f, c) then c.segs[|f.segs|..] else c.segs;
    forall i | 0 <= i < |rest| ensures SEPARATOR !in rest[i] && '\\' !in rest[i] {
      assert rest[i] in c.segs;
      assert forall j | 0 <= j < |c.segs| :: IsPlain(c.segs[j]);
    }
    PushAllNormal(Below(f), rest);
    PushKeepsRoot(Below(f), rest);
  }

  /** What lies below the baseline folder is the baseline of a file inside. */
  lemma BaselineOfSome(f: Canon, at: Canon) returns (d: Canon)
    requires IsNormal(f) && Settled(f) && IsNormal(at) && at.rooted == f.rooted && Below(f).segs <= at.segs
    ensures IsNormal(d) && Inside(f, d) && d.segs == f.segs + at.segs[|Below(f).segs|..] && BaselineOf(f, d) == at
  {
    var n := |Below(f).segs|;
    var rest := at.segs[n..];
    d := f.(segs := f.segs + rest);
    forall i | 0 <= i < |rest| ensures IsPlain(rest[i]) && rest[i] != ".." {
      assert rest[i] == at.segs[n + i];
      assert at.segs[n - 1] == Below(f).segs[n - 1] == GENERATED;
    }
    ExtendNormal(f, rest);
    assert d.segs[|f.segs|..] == rest;
    PushPlain(Below(f), rest);
    assert at.segs == Below(f).segs + rest;
  }

  /** A file's merge reads a baseline kept for another file exactly when the file is
      outside the folder and what it looks up is below the baseline folder. */
  lemma OutsideReadsAnothers(f: Canon, c: Canon, slash: bool)
    requires IsNormal(f) && IsNormal(c) && Settled(f)
    ensures ReadsAnothers(f, c, slash) <==> !Inside(f, c) && Below(f).segs <= BaselineAt(f, c).segs
  {
    BaselineMeans(f, c, slash);
    hide BaselinePath, Text, TextOf, CanonOf;
    var at := BaselineAt(f, c);
    if ReadsAnothers(f, c, slash) {
      var d :| IsNormal(d) && Inside(f, d) && d != c && at == BaselineOf(f, d);
      SettledBaselines(f, d);
      if Inside(f, c) {
        BaselinesApart(f);
        SettledBaselines(f, c);
      }
    }
    if !Inside(f, c) && Below(f).segs <= at.segs {
      BaselineAtNormal(f, c);
      var d := BaselineOfSome(f, at);
    }
  }

  /** So every file outside the folder whose path takes no step upwards does. */
  lemma OutsideShares(f: Canon, c: Canon, slash: bool)
    requires IsNormal(f) && IsNormal(c) && Settled(f) && ".." !in c.segs
    ensures ReadsAnothers(f, c, slash) <==> !Inside(f, c)
    ensures !Inside(f, c) ==> var d := f.(segs := f.segs + c.segs);
              && IsNormal(d) && Inside(f, d) && d != c && CanonOf(BaselinePath(Text(f), TextOf(c, slash))) == BaselineOf(f, d)
  {
    OutsideReadsAnothers(f, c, slash);
    BaselineMeans(f, c, slash);
    hide BaselinePath, Text, TextOf, CanonOf, ReadsAnothers;
    if !Inside(f, c) {
      assert ArePlain(c.segs);
      PushPlain(Below(f), c.segs);
      BaselineAtNormal(f, c);
      var d := BaselineOfSome(f, BaselineAt(f, c));
      assert BaselineAt(f, c).segs[|Below(f).segs|..] == c.segs;
      SameFolder(f, c, d);
    }
  }

  lemma SameFolder(f: Canon, c: Canon, d: Canon)
    requires Inside(f, d) && !Inside(f, c) && d.segs == f.segs + c.segs
    ensures d == f.(segs := f.segs + c.segs) && d != c
  {
  }

  /** In such a folder the clamp never drops the baseline of a file inside it, however
      the folder and the file were written. */
  lemma SettledNeverClamped(folder: string, path: string)
    requires Settled(CanonOf(folder)) && WithinFolder(Cleaned(folder), Canonical(path))
    ensures !Clamped(Cleaned(folder), BaselinePath(Cleaned(folder), Canonical(path)))
  {
    var f, c, slash := CanonOf(folder), CanonOf(path), EndsWithSeparator(Fwd(path));
    CanonOfNormal(folder);
    CanonOfNormal(path);
    hide CanonOf, IsNormal, WithinFolder, Clamped, BaselinePath;
    assert Canonical(path) == TextOf(c, slash);
    WithinMeans(f, c, slash);
    ClampMeans(f, c, slash);
    SettledBaselines(f, c);
  }

  /** For any other folder, a file that passes the folder test and whose baseline the
      clamp drops, because it would lie beside the baseline folder. */
  lemma UpwardEscapes(f: Canon) returns (c: Canon)
    requires IsNormal(f) && !Settled(f)
    ensures IsNormal(c) && WithinFolder(Text(f), TextOf(c, false)) && Clamped(Text(f), BaselinePath(Text(f), TextOf(c, false)))
  {
    var more := ["..", "x"];
    c := f.(segs := f.segs + more);
    assert IsPlain("x") && IsPlain("..");
    ExtendNormal(f, more);
    hide IsNormal, IsPlain, WithinFolder, Clamped, BaselinePath;
    assert c.segs[|f.segs|..] == more;
    WithinMeans(f, c, false);
    ClampMeans(f, c, false);
    var up := f.(segs := f.segs + [META]);
    assert Below(f).segs == up.segs + [GENERATED];
    assert Below(f).segs[..|Below(f).segs| - 1] == up.segs;
    assert more[1..] == ["x"];
    assert PushAll(Below(f), more) == PushAll(up, ["x"]) by {
      assert GENERATED != "..";
    }
    assert IsPlain("x");
    PushPlain(up, ["x"]);
    assert BaselineOf(f, c).segs[|f.segs| + 1] == "x" && Below(f).segs[|f.segs| + 1] == GENERATED;
  }

  /** The folder test alone keeps every baseline below the baseline folder. */
  ghost predicate NeverClamped(f: Canon) {
    forall c, slash | IsNormal(c) && WithinFolder(Text(f), TextOf(c, slash)) ::
      !Clamped(Text(f), BaselinePath(Text(f), TextOf(c, slash)))
  }

  /** The clamp has nothing to do exactly in folders that do not end in "..". */
  lemma ClampIsIdle(f: Canon)
    requires IsNormal(f)
    ensures NeverClamped(f) <==> Settled(f)
  {
    hide IsNormal, WithinFolder, Clamped, BaselinePath, Text, TextOf;
    if Settled(f) {
      forall c, slash | IsNormal(c) && WithinFolder(Text(f), TextOf(c, slash))
        ensures !Clamped(Text(f), BaselinePath(Text(f), TextOf(c, slash)))
      {
        WithinMeans(f, c, slash);
        ClampMeans(f, c, slash);
        SettledBaselines(f, c);
      }
    } else {
      var c := UpwardEscapes(f);
    }
  }
}
