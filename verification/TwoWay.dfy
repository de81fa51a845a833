/** The two-way diff: hunks of shared and changed lines. */
module TwoWay {
  import opened LcsSpec
  import opened LcsEngine
  import opened Diff3

  datatype Hunk<T> =
    | SameHunk(lines: seq<T>)
    | ChangeHunk(generated: seq<T>, existing: seq<T>)

  // --- Hunks ---------------------------------------------------------------------

  /** A change hunk for what both sides hold before the next shared line, if anything. */
  function Flush<T(==)>(out: seq<Hunk<T>>, g: seq<T>, e: seq<T>): seq<Hunk<T>> {
    if g == [] && e == [] then out else out + [ChangeHunk(g, e)]
  }

  /** The shared line, in the hunk before it when that is one of shared lines. */
  function AddSame<T>(out: seq<Hunk<T>>, line: T): seq<Hunk<T>> {
    if out != [] && out[|out| - 1].SameHunk? then
      out[..|out| - 1] + [SameHunk(out[|out| - 1].lines + [line])]
    else out + [SameHunk([line])]
  }

  /** The hunks up to the k-th shared line, whose positions f and g list. */
  ghost function HunksTo<T>(common: seq<T>, generated: seq<T>, f: seq<int>, existing: seq<T>, g: seq<int>, k: nat): seq<Hunk<T>>
    requires k <= |common| && IsFirstFit(common, generated, f, 0) && IsFirstFit(common, existing, g, 0)
  {
    if k == 0 then []
    else
      assert FirstAt(common, generated, f, 0, k - 1) && FirstAt(common, existing, g, 0, k - 1);
      var before := HunksTo(common, generated, f, existing, g, k - 1);
      AddSame(Flush(before, generated[After(f, k - 1, 0)..f[k - 1]], existing[After(g, k - 1, 0)..g[k - 1]]), common[k - 1])
  }

  lemma StepBounds<T>(s: seq<T>, a: seq<T>, f: seq<int>, k: nat)
    requires IsFirstFit(s, a, f, 0) && k < |s|
    ensures |f| == |s| && 0 <= After(f, k, 0) <= f[k] < |a| && a[f[k]] == s[k]
  {
    assert FirstAt(s, a, f, 0, k);
  }

  lemma HunksToStep<T>(common: seq<T>, generated: seq<T>, f: seq<int>, existing: seq<T>, g: seq<int>, k: nat)
    requires k < |common| && IsFirstFit(common, generated, f, 0) && IsFirstFit(common, existing, g, 0)
    ensures |f| == |g| == |common|
    ensures 0 <= After(f, k, 0) <= f[k] < |generated| && 0 <= After(g, k, 0) <= g[k] < |existing|
    ensures HunksTo(common, generated, f, existing, g, k + 1)
         == AddSame(Flush(HunksTo(common, generated, f, existing, g, k),
                          generated[After(f, k, 0)..f[k]], existing[After(g, k, 0)..g[k]]), common[k])
  {
    StepBounds(common, generated, f, k);
    StepBounds(common, existing, g, k);
  }

  lemma HunksToStart<T>(common: seq<T>, generated: seq<T>, f: seq<int>, existing: seq<T>, g: seq<int>)
    requires IsFirstFit(common, generated, f, 0) && IsFirstFit(common, existing, g, 0)
    ensures HunksTo(common, generated, f, existing, g, 0) == []
  {
  }

  ghost function HunksOf<T>(generated: seq<T>, existing: seq<T>): seq<Hunk<T>> {
    var common := Walk(generated, existing);
    var f, g := FirstFit(common, generated, 0), FirstFit(common, existing, 0);
    CommonFits(generated, existing);
    FitEnd(common, generated, f);
    FitEnd(common, existing, g);
    Flush(HunksTo(common, generated, f, existing, g, |common|),
          generated[After(f, |common|, 0)..], existing[After(g, |common|, 0)..])
  }

  lemma FitEnd<T>(s: seq<T>, a: seq<T>, f: seq<int>)
    requires IsFirstFit(s, a, f, 0)
    ensures 0 <= After(f, |s|, 0) <= |a|
  {
    if s != [] {
      assert FirstAt(s, a, f, 0, |s| - 1);
    }
  }

  method Hunks<T(==)>(generated: seq<T>, existing: seq<T>) returns (out: seq<Hunk<T>>)
    ensures out == HunksOf(generated, existing)
  {
    hide Walk, Len, FirstFit, Embeds, HunksTo, Flush, AddSame;
    var common := Lcs(generated, existing);
    ghost var f, g := FirstFit(common, generated, 0), FirstFit(common, existing, 0);
    CommonFits(generated, existing);
    HunksToStart(common, generated, f, existing, g);
    hide IsFirstFit;
    out := [];
    var gi, ei := 0, 0;
    for k := 0 to |common|
      invariant gi == After(f, k, 0) <= |generated|
      invariant ei == After(g, k, 0) <= |existing|
      invariant out == HunksTo(common, generated, f, existing, g, k)
    {
      var line := common[k];
      FirstFitAt(common, generated, f, k);
      FirstFitAt(common, existing, g, k);
      HunksToStep(common, generated, f, existing, g, k);
      var gRun, eRun := [], [];
      while gi < |generated| && generated[gi] != line
        invariant After(f, k, 0) <= gi <= f[k]
        invariant gRun == generated[After(f, k, 0)..gi]
      {
        gRun := gRun + [generated[gi]];
        gi := gi + 1;
      }
      while ei < |existing| && existing[ei] != line
        invariant After(g, k, 0) <= ei <= g[k]
        invariant eRun == existing[After(g, k, 0)..ei]
      {
        eRun := eRun + [existing[ei]];
        ei := ei + 1;
      }
      out := AddSame(Flush(out, gRun, eRun), line);
      gi, ei := gi + 1, ei + 1;
    }
    out := Flush(out, generated[gi..], existing[ei..]);
  }

  lemma FirstFitAt<T>(s: seq<T>, a: seq<T>, f: seq<int>, k: nat)
    requires IsFirstFit(s, a, f, 0) && k < |s|
    ensures |f| == |s| && IsFirst(a, s[k], After(f, k, 0), f[k])
  {
    assert FirstAt(s, a, f, 0, k);
  }

  // --- What the hunks say ------------------------------------------------------------

  function HunkSide<T>(h: Hunk<T>, side: Side): seq<T> {
    match h
    case SameHunk(lines) => lines
    case ChangeHunk(g, e) => if side == Generated then g else e
  }

  /** One side of a list of hunks, concatenated. */
  function SideLines<T>(hs: seq<Hunk<T>>, side: Side): seq<T> {
    if hs == [] then [] else HunkSide(hs[0], side) + SideLines(hs[1..], side)
  }

  /** The shared lines of a list of hunks, concatenated. */
  function SharedLines<T>(hs: seq<Hunk<T>>): seq<T> {
    if hs == [] then []
    else (if hs[0].SameHunk? then hs[0].lines else []) + SharedLines(hs[1..])
  }

  predicate NonEmpty<T(==)>(h: Hunk<T>) {
    match h
    case SameHunk(lines) => lines != []
    case ChangeHunk(g, e) => g != [] || e != []
  }

  /** Kinds strictly alternate and no hunk is empty. */
  ghost predicate WellFormed<T>(hs: seq<Hunk<T>>) {
    && (forall i | 0 <= i < |hs| :: NonEmpty(hs[i]))
    && (forall i | 0 < i < |hs| :: hs[i].SameHunk? != hs[i - 1].SameHunk?)
  }

  lemma {:induction false} SideLinesConcat<T>(a: seq<Hunk<T>>, b: seq<Hunk<T>>, side: Side)
    ensures SideLines(a + b, side) == SideLines(a, side) + SideLines(b, side)
  {
    if a == [] {
      assert a + b == b;
    } else {
      assert (a + b)[1..] == a[1..] + b;
      SideLinesConcat(a[1..], b, side);
    }
  }

  lemma {:induction false} SharedLinesConcat<T>(a: seq<Hunk<T>>, b: seq<Hunk<T>>)
    ensures SharedLines(a + b) == SharedLines(a) + SharedLines(b)
  {
    if a == [] {
      assert a + b == b;
    } else {
      assert (a + b)[1..] == a[1..] + b;
      SharedLinesConcat(a[1..], b);
    }
  }

  lemma OneHunk<T>(h: Hunk<T>, side: Side)
    ensures SideLines([h], side) == HunkSide(h, side)
    ensures SharedLines([h]) == if h.SameHunk? then h.lines else []
  {
    assert [h][1..] == [];
  }

  lemma FlushLines<T>(out: seq<Hunk<T>>, g: seq<T>, e: seq<T>)
    ensures SideLines(Flush(out, g, e), Generated) == SideLines(out, Generated) + g
    ensures SideLines(Flush(out, g, e), Existing) == SideLines(out, Existing) + e
    ensures SharedLines(Flush(out, g, e)) == SharedLines(out)
  {
    var h := ChangeHunk(g, e);
    SideLinesConcat(out, [h], Generated);
    SideLinesConcat(out, [h], Existing);
    SharedLinesConcat(out, [h]);
    OneHunk(h, Generated);
    OneHunk(h, Existing);
  }

  lemma AddSameLines<T>(out: seq<Hunk<T>>, line: T, side: Side)
    ensures SideLines(AddSame(out, line), side) == SideLines(out, side) + [line]
    ensures SharedLines(AddSame(out, line)) == SharedLines(out) + [line]
  {
    hide SideLines, SharedLines;
    if out != [] && out[|out| - 1].SameHunk? {
      var init, last := out[..|out| - 1], out[|out| - 1];
      var longer := SameHunk(last.lines + [line]);
      assert out == init + [last];
      SideLinesConcat(init, [last], side);
      SideLinesConcat(init, [longer], side);
      SharedLinesConcat(init, [last]);
      SharedLinesConcat(init, [longer]);
      OneHunk(last, side);
      OneHunk(longer, side);
    } else {
      SideLinesConcat(out, [SameHunk([line])], side);
      SharedLinesConcat(out, [SameHunk([line])]);
      OneHunk(SameHunk([line]), side);
    }
  }

  lemma {:induction false} HunksToHold<T>(common: seq<T>, generated: seq<T>, f: seq<int>, existing: seq<T>, g: seq<int>, k: nat)
    requires k <= |common| && IsFirstFit(common, generated, f, 0) && IsFirstFit(common, existing, g, 0)
    ensures 0 <= After(f, k, 0) <= |generated| && 0 <= After(g, k, 0) <= |existing|
    ensures SideLines(HunksTo(common, generated, f, existing, g, k), Generated) == generated[..After(f, k, 0)]
    ensures SideLines(HunksTo(common, generated, f, existing, g, k), Existing) == existing[..After(g, k, 0)]
    ensures SharedLines(HunksTo(common, generated, f, existing, g, k)) == common[..k]
  {
    hide IsFirstFit, HunksTo, SideLines, SharedLines, Flush, AddSame;
    if k > 0 {
      HunksToStep(common, generated, f, existing, g, k - 1);
      StepBounds(common, generated, f, k - 1);
      StepBounds(common, existing, g, k - 1);
      HunksToHold(common, generated, f, existing, g, k - 1);
      AddRun(HunksTo(common, generated, f, existing, g, k - 1),
             generated[After(f, k - 1, 0)..f[k - 1]], existing[After(g, k - 1, 0)..g[k - 1]], common[k - 1]);
      PrefixStep(generated, After(f, k - 1, 0), f[k - 1]);
      PrefixStep(existing, After(g, k - 1, 0), g[k - 1]);
      assert common[..k] == common[..k - 1] + [common[k - 1]];
    } else {
      HunksToStart(common, generated, f, existing, g);
      NoHunks<T>();
    }
  }

  lemma NoHunks<T>()
    ensures SideLines<T>([], Generated) == SideLines<T>([], Existing) == SharedLines<T>([]) == []
  {
  }

  lemma AddRun<T>(out: seq<Hunk<T>>, g: seq<T>, e: seq<T>, line: T)
    ensures SideLines(AddSame(Flush(out, g, e), line), Generated) == SideLines(out, Generated) + g + [line]
    ensures SideLines(AddSame(Flush(out, g, e), line), Existing) == SideLines(out, Existing) + e + [line]
    ensures SharedLines(AddSame(Flush(out, g, e), line)) == SharedLines(out) + [line]
  {
    hide SideLines, SharedLines, Flush, AddSame;
    FlushLines(out, g, e);
    AddSameLines(Flush(out, g, e), line, Generated);
    AddSameLines(Flush(out, g, e), line, Existing);
  }

  lemma PrefixStep<T>(xs: seq<T>, i: nat, j: nat)
    requires i <= j < |xs|
    ensures xs[..j + 1] == xs[..i] + xs[i..j] + [xs[j]]
  {
  }

  lemma FlushWellFormed<T>(out: seq<Hunk<T>>, g: seq<T>, e: seq<T>)
    requires WellFormed(out) && (out != [] ==> out[|out| - 1].SameHunk?)
    ensures WellFormed(Flush(out, g, e))
  {
  }

  lemma AddSameWellFormed<T>(out: seq<Hunk<T>>, line: T)
    requires WellFormed(out)
    ensures WellFormed(AddSame(out, line))
    ensures AddSame(out, line) != [] && AddSame(out, line)[|AddSame(out, line)| - 1].SameHunk?
  {
  }

  lemma {:induction false} HunksToWellFormed<T>(common: seq<T>, generated: seq<T>, f: seq<int>, existing: seq<T>, g: seq<int>, k: nat)
    requires k <= |common| && IsFirstFit(common, generated, f, 0) && IsFirstFit(common, existing, g, 0)
    ensures var hs := HunksTo(common, generated, f, existing, g, k);
            WellFormed(hs) && (hs != [] ==> hs[|hs| - 1].SameHunk?)
  {
    hide WellFormed, Flush, AddSame, HunksTo, IsFirstFit;
    if k > 0 {
      HunksToStep(common, generated, f, existing, g, k - 1);
      HunksToWellFormed(common, generated, f, existing, g, k - 1);
      var before := HunksTo(common, generated, f, existing, g, k - 1);
      var gRun, eRun := generated[After(f, k - 1, 0)..f[k - 1]], existing[After(g, k - 1, 0)..g[k - 1]];
      FlushWellFormed(before, gRun, eRun);
      AddSameWellFormed(Flush(before, gRun, eRun), common[k - 1]);
    } else {
      HunksToStart(common, generated, f, existing, g);
      assert WellFormed<T>([]) by { NoHunksWellFormed<T>(); }
    }
  }

  lemma NoHunksWellFormed<T>()
    ensures WellFormed<T>([])
  {
  }

  /** The hunks rebuild both inputs, their shared lines are the longest common
      subsequence, no hunk is empty and the kinds strictly alternate. */
  lemma HunksRebuildBothSides<T>(generated: seq<T>, existing: seq<T>)
    ensures SideLines(HunksOf(generated, existing), Generated) == generated
    ensures SideLines(HunksOf(generated, existing), Existing) == existing
    ensures SharedLines(HunksOf(generated, existing)) == Walk(generated, existing)
    ensures WellFormed(HunksOf(generated, existing))
  {
    hide Walk, Len, FirstFit, Embeds, SideLines, SharedLines, Flush, WellFormed, HunksTo;
    var common := Walk(generated, existing);
    var f, g := FirstFit(common, generated, 0), FirstFit(common, existing, 0);
    CommonFits(generated, existing);
    var n := |common|;
    HunksToHold(common, generated, f, existing, g, n);
    HunksToWellFormed(common, generated, f, existing, g, n);
    FitEnd(common, generated, f);
    FitEnd(common, existing, g);
    var hs := HunksTo(common, generated, f, existing, g, n);
    FlushLines(hs, generated[After(f, n, 0)..], existing[After(g, n, 0)..]);
    FlushWellFormed(hs, generated[After(f, n, 0)..], existing[After(g, n, 0)..]);
    assert generated[..After(f, n, 0)] + generated[After(f, n, 0)..] == generated;
    assert existing[..After(g, n, 0)] + existing[After(g, n, 0)..] == existing;
    assert common[..n] == common;
  }

  lemma CommonIsShared<T>(common: seq<T>, a: seq<T>, f: seq<int>, b: seq<T>, g: seq<int>)
    requires Embeds(common, a, f) && Embeds(common, b, g)
    ensures common != [] ==> exists i, j :: 0 <= i < |a| && 0 <= j < |b| && a[i] == b[j]
  {
    if common != [] {
      assert a[f[0]] == b[g[0]];
    }
  }

  /** Two texts without a common line are one changed run. */
  lemma NothingShared<T>(generated: seq<T>, existing: seq<T>)
    requires generated != [] || existing != []
    requires forall i, j | 0 <= i < |generated| && 0 <= j < |existing| :: generated[i] != existing[j]
    ensures HunksOf(generated, existing) == [ChangeHunk(generated, existing)]
  {
    hide Walk, Len, FirstFit;
    var common := Walk(generated, existing);
    var f, g := FirstFit(common, generated, 0), FirstFit(common, existing, 0);
    CommonFits(generated, existing);
    CommonIsShared(common, generated, f, existing, g);
    HunksToStart(common, generated, f, existing, g);
    assert generated[0..] == generated && existing[0..] == existing;
  }
}
