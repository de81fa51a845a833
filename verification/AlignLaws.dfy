/** Which of several equal lines an anchor takes, and a shared line of a diff: the first
    one that any way of finding the common lines could take. */
module AlignLaws {
  import opened LcsSpec
  import opened LcsEngine
  import opened Diff3
  import opened TwoWay

  // --- Anchors -------------------------------------------------------------------------

  /** No embedding finds a line earlier than the first fit does. */
  lemma {:induction false} FirstFitIsLeast<T>(s: seq<T>, a: seq<T>, f: seq<int>, h: seq<int>, k: nat)
    requires IsFirstFit(s, a, f, 0) && Embeds(s, a, h) && k < |s|
    ensures |f| == |h| == |s| && f[k] <= h[k]
  {
    assert FirstAt(s, a, f, 0, k);
    if k > 0 {
      FirstFitIsLeast(s, a, f, h, k - 1);
      assert h[k - 1] < h[k];
    }
  }

  /** Cut in front of its k-th anchor, an anchor map is that of the anchors before it. */
  lemma AnchorMapBefore(n: nat, f: seq<int>, g: seq<int>, k: nat)
    requires |f| == |g| && Increasing(f, n) && k < |f|
    ensures AnchorMap(n, f, g)[..f[k]] == AnchorMap(f[k], f[..k], g[..k])
  {
    hide AnchorMap;
    var whole, part := AnchorMap(n, f, g), AnchorMap(f[k], f[..k], g[..k]);
    forall i | 0 <= i < f[k] ensures whole[i] == part[i] {
      if i in f[..k] {
        var j :| 0 <= j < k && f[..k][j] == i;
        AnchorMapAt(n, f, g, j);
        AnchorMapAt(f[k], f[..k], g[..k], j);
      } else {
        if i in f {
          EarlierEntry(f, n, i, k);
        }
        AnchorMapElse(n, f, g, i);
        AnchorMapElse(f[k], f[..k], g[..k], i);
      }
    }
  }

  lemma EarlierEntry(f: seq<int>, n: nat, i: int, k: nat)
    requires Increasing(f, n) && k < |f| && i in f && i < f[k]
    ensures i in f[..k]
  {
    var j :| 0 <= j < |f| && f[j] == i;
    assert j < k && f[..k][j] == i;
  }

  lemma AnchorsBefore(n: nat, f: seq<int>, g: seq<int>, k: nat)
    requires |f| == |g| && Increasing(f, n) && k < |f| && forall j | 0 <= j < |g| :: 0 <= g[j]
    ensures AnchorCount(AnchorMap(n, f, g)[..f[k]]) == k
  {
    hide AnchorMap, AnchorCount;
    AnchorMapBefore(n, f, g, k);
    AnchorMapCount(f[k], f[..k], g[..k]);
  }

  /** An anchor takes the first baseline line and the first line of the other text that
      it could take: however the canonical common lines are found in both texts, the
      k-th of them is found no earlier. */
  lemma AlignIsLeftmost<T>(base: seq<T>, target: seq<T>, f: seq<int>, g: seq<int>, i: nat)
    requires Embeds(Walk(base, target), base, f) && Embeds(Walk(base, target), target, g)
    requires i < |base| && Align(base, target)[i] >= 0
    ensures var k := AnchorCount(Align(base, target)[..i]);
            k < |f| == |g| && i <= f[k] && Align(base, target)[i] <= g[k]
  {
    hide Walk, Len, FirstFit, AnchorMap, AnchorCount;
    var common := Walk(base, target);
    var first, second := FirstFit(common, base, 0), FirstFit(common, target, 0);
    CommonFits(base, target);
    if i !in first {
      AnchorMapElse(|base|, first, second, i);
    }
    var k :| 0 <= k < |first| && first[k] == i;
    AnchorMapAt(|base|, first, second, k);
    AnchorsBefore(|base|, first, second, k);
    FirstFitIsLeast(common, base, first, f, k);
    FirstFitIsLeast(common, target, second, g, k);
  }

  // --- Shared lines of a diff -----------------------------------------------------------

  /** No changed run holds, on either side, the shared line that follows it. */
  ghost predicate MeetsFirst<T>(hs: seq<Hunk<T>>) {
    forall n | 0 <= n < |hs| - 1 && hs[n].ChangeHunk? && hs[n + 1].SameHunk? && hs[n + 1].lines != [] ::
      hs[n + 1].lines[0] !in hs[n].generated && hs[n + 1].lines[0] !in hs[n].existing
  }

  lemma FlushMeets<T>(out: seq<Hunk<T>>, g: seq<T>, e: seq<T>)
    requires MeetsFirst(out) && (out != [] ==> out[|out| - 1].SameHunk?)
    ensures MeetsFirst(Flush(out, g, e))
  {
  }

  lemma AddMeets<T>(out: seq<Hunk<T>>, line: T)
    requires MeetsFirst(out) && WellFormed(out)
    requires out != [] && out[|out| - 1].ChangeHunk? ==> line !in out[|out| - 1].generated && line !in out[|out| - 1].existing
    ensures MeetsFirst(AddSame(out, line))
  {
    var more := AddSame(out, line);
    forall n | 0 <= n < |more| - 1 && more[n].ChangeHunk? && more[n + 1].SameHunk?
      ensures more[n] == out[n]
      ensures n + 1 < |out| ==> out[n + 1].SameHunk? && out[n + 1].lines != [] && more[n + 1].lines[0] == out[n + 1].lines[0]
    {
    }
  }

  lemma RunMeets<T>(out: seq<Hunk<T>>, g: seq<T>, e: seq<T>, line: T)
    requires MeetsFirst(out) && WellFormed(out) && (out != [] ==> out[|out| - 1].SameHunk?)
    requires line !in g && line !in e
    ensures MeetsFirst(AddSame(Flush(out, g, e), line))
  {
    FlushMeets(out, g, e);
    FlushWellFormed(out, g, e);
    hide MeetsFirst, WellFormed, AddSame;
    AddMeets(Flush(out, g, e), line);
  }

  lemma RunWithout<T>(s: seq<T>, a: seq<T>, f: seq<int>, k: nat)
    requires IsFirstFit(s, a, f, 0) && k < |s|
    ensures |f| == |s| && 0 <= After(f, k, 0) <= f[k] < |a| && s[k] !in a[After(f, k, 0)..f[k]]
  {
    assert FirstAt(s, a, f, 0, k);
  }

  lemma {:induction false} HunksToMeet<T>(common: seq<T>, generated: seq<T>, f: seq<int>, existing: seq<T>, g: seq<int>, k: nat)
    requires k <= |common| && IsFirstFit(common, generated, f, 0) && IsFirstFit(common, existing, g, 0)
    ensures MeetsFirst(HunksTo(common, generated, f, existing, g, k))
  {
    hide WellFormed, Flush, AddSame, HunksTo, IsFirstFit, MeetsFirst;
    if k > 0 {
      var before := HunksTo(common, generated, f, existing, g, k - 1);
      HunksToStep(common, generated, f, existing, g, k - 1);
      HunksToMeet(common, generated, f, existing, g, k - 1);
      HunksToWellFormed(common, generated, f, existing, g, k - 1);
      RunWithout(common, generated, f, k - 1);
      RunWithout(common, existing, g, k - 1);
      RunMeets(before, generated[After(f, k - 1, 0)..f[k - 1]], existing[After(g, k - 1, 0)..g[k - 1]], common[k - 1]);
    } else {
      HunksToStart(common, generated, f, existing, g);
      NoneMeet<T>();
    }
  }

  lemma NoneMeet<T>()
    ensures MeetsFirst<T>([])
  {
  }

  /** A diff shares each common line where both texts first have it, so that the common
      lines settle the hunks. */
  lemma HunksAreLeftmost<T>(generated: seq<T>, existing: seq<T>)
    ensures MeetsFirst(HunksOf(generated, existing))
  {
    hide Walk, Len, FirstFit, Embeds, Flush, WellFormed, HunksTo, MeetsFirst;
    var common := Walk(generated, existing);
    var f, g := FirstFit(common, generated, 0), FirstFit(common, existing, 0);
    CommonFits(generated, existing);
    var n := |common|;
    HunksToMeet(common, generated, f, existing, g, n);
    HunksToWellFormed(common, generated, f, existing, g, n);
    FitEnd(common, generated, f);
    FitEnd(common, existing, g);
    FlushMeets(HunksTo(common, generated, f, existing, g, n), generated[After(f, n, 0)..], existing[After(g, n, 0)..]);
  }
}
