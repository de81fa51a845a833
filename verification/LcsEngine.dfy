/** The line-diff core: the two-row length table, Hirschberg's divide and
    conquer, the trimmed LCS and the anchor map, each proved against LcsSpec. */
module LcsEngine {
  import opened LcsSpec

  // --- One row of the length table ---------------------------------------------

  /** Element i, counted from the back when reverse is set. */
  function At<T>(xs: seq<T>, i: nat, reverse: bool): T
    requires i < |xs|
  {
    if reverse then xs[|xs| - 1 - i] else xs[i]
  }

  /** The first i elements, or the last i when reverse is set. */
  ghost function Part<T>(xs: seq<T>, i: nat, reverse: bool): seq<T>
    requires i <= |xs|
  {
    if reverse then xs[|xs| - i..] else xs[..i]
  }

  /** One entry of the table: i lines of a against j lines of b. */
  ghost function Entry<T>(a: seq<T>, b: seq<T>, i: nat, j: nat, reverse: bool): nat
    requires i <= |a| && j <= |b|
  {
    Len(Part(a, i, reverse), Part(b, j, reverse))
  }

  lemma EntryBorder<T>(a: seq<T>, b: seq<T>, i: nat, j: nat, reverse: bool)
    requires i <= |a| && j <= |b| && (i == 0 || j == 0)
    ensures Entry(a, b, i, j, reverse) == 0
  {
  }

  lemma EntryStep<T>(a: seq<T>, b: seq<T>, i: nat, j: nat, reverse: bool)
    requires i < |a| && j < |b|
    ensures Entry(a, b, i + 1, j + 1, reverse)
         == if At(a, i, reverse) == At(b, j, reverse) then Entry(a, b, i, j, reverse) + 1
            else Max(Entry(a, b, i, j + 1, reverse), Entry(a, b, i + 1, j, reverse))
  {
    hide Len;
    var x, y := At(a, i, reverse), At(b, j, reverse);
    if reverse {
      assert Part(a, i + 1, true) == [x] + Part(a, i, true);
      assert Part(b, j + 1, true) == [y] + Part(b, j, true);
      LenCons(x, Part(a, i, true), y, Part(b, j, true));
    } else {
      assert Part(a, i + 1, false) == Part(a, i, false) + [x];
      assert Part(b, j + 1, false) == Part(b, j, false) + [y];
      LenSnoc(Part(a, i, false), x, Part(b, j, false), y);
    }
  }

  /** The final row of the table for a against b: entry k is the length against the
      first k lines of b, or the last k when reverse is set. work counts the line
      comparisons made. */
  method LcsRow<T(==)>(a: seq<T>, b: seq<T>, reverse: bool) returns (row: array<nat>, ghost work: nat)
    ensures row.Length == |b| + 1
    ensures forall k | 0 <= k <= |b| :: row[k] == Len(a, Part(b, k, reverse))
    ensures work == |a| * |b|
  {
    hide Len, Entry, At;
    var prev := new nat[|b| + 1](_ => 0);
    var cur := new nat[|b| + 1](_ => 0);
    work := 0;
    forall k | 0 <= k <= |b| ensures Entry(a, b, 0, k, reverse) == 0 {
      EntryBorder(a, b, 0, k, reverse);
    }
    for i := 0 to |a|
      invariant fresh(prev) && fresh(cur) && prev != cur
      invariant prev.Length == cur.Length == |b| + 1
      invariant forall k | 0 <= k <= |b| :: prev[k] == Entry(a, b, i, k, reverse)
      invariant work == i * |b|
    {
      var x := At(a, i, reverse);
      cur[0] := 0;
      EntryBorder(a, b, i + 1, 0, reverse);
      for j := 0 to |b|
        invariant forall k | 0 <= k <= |b| :: prev[k] == Entry(a, b, i, k, reverse)
        invariant forall k | 0 <= k <= j :: cur[k] == Entry(a, b, i + 1, k, reverse)
        invariant work == i * |b| + j
      {
        EntryStep(a, b, i, j, reverse);
        work := work + 1;
        if x == At(b, j, reverse) {
          cur[j + 1] := prev[j] + 1;
        } else if prev[j + 1] >= cur[j] {
          cur[j + 1] := prev[j + 1];
        } else {
          cur[j + 1] := cur[j];
        }
      }
      prev, cur := cur, prev;
    }
    row := prev;
    forall k | 0 <= k <= |b| ensures row[k] == Len(a, Part(b, k, reverse)) {
      LastRow(a, b, k, reverse);
    }
  }

  lemma LastRow<T>(a: seq<T>, b: seq<T>, k: nat, reverse: bool)
    requires k <= |b|
    ensures Entry(a, b, |a|, k, reverse) == Len(a, Part(b, k, reverse))
  {
    assert Part(a, |a|, reverse) == a;
  }

  // --- Divide and conquer ---------------------------------------------------------

  /** Line comparisons allowed for n lines against m, whatever the splits. */
  function WorkBound(n: nat, m: nat): nat {
    if n == 1 then m else 3 * n * m
  }

  lemma WorkSplits(n: nat, m: nat, mid: nat, split: nat)
    requires n >= 2 && mid == n / 2 && split <= m
    ensures mid * m + (n - mid) * m + WorkBound(mid, split) + WorkBound(n - mid, m - split) <= WorkBound(n, m)
  {
    hide WorkBound;
    var half, rest := n - mid, m - split;
    Distribute(mid, half, m);
    WorkBoundIsProduct(mid, split);
    WorkBoundIsProduct(half, rest);
    WorkBoundIsProduct(n, m);
    if n > 2 {
      ShareOfWork(mid, n, split);
      ShareOfWork(half, n, rest);
      Distribute(split, rest, n);
    }
  }

  lemma WorkBoundIsProduct(n: nat, m: nat)
    ensures WorkBound(n, m) <= 3 * (n * m)
    ensures n == 1 ==> WorkBound(n, m) == m
    ensures n == 2 ==> WorkBound(n, m) == 6 * m
    ensures n > 1 ==> WorkBound(n, m) == 3 * (n * m)
  {
  }

  lemma Distribute(x: nat, y: nat, z: nat)
    ensures x * z + y * z == (x + y) * z == z * (x + y) == z * x + z * y
  {
  }

  lemma ShareOfWork(part: nat, n: nat, m: nat)
    requires 3 * part <= 2 * n
    ensures 3 * (part * m) <= 2 * (n * m)
  {
    assert (2 * n - 3 * part) * m >= 0;
  }

  /** Hirschberg's algorithm appends to out exactly the lines the full-table walk
      recovers, within the work bound. */
  method Hirschberg<T(==)>(a: seq<T>, b: seq<T>, out: seq<T>) returns (res: seq<T>, ghost work: nat)
    ensures res == out + Walk(a, b)
    ensures work <= WorkBound(|a|, |b|)
    decreases |a|
  {
    hide Walk, Len, WorkBound;
    if |a| == 0 || |b| == 0 {
      WalkEmpty(a);
      WalkEmpty(b);
      assert out + [] == out;
      return out, 0;
    }
    if |a| == 1 {
      res, work := ScanLast(a[0], b, out);
      assert a == [a[0]];
      return;
    }
    var mid := |a| / 2;
    var headRow, headWork := LcsRow(a[..mid], b, false);
    var tailRow, tailWork := LcsRow(a[mid..], b, true);
    assert forall k | 0 <= k <= |b| :: b[|b| - (|b| - k)..] == b[k..];
    var best: int, split: nat := -1, 0;
    for k := 0 to |b| + 1
      invariant split <= |b|
      invariant k > 0 ==> split < k && best == SplitSum(a[..mid], a[mid..], b, split)
      invariant k == 0 ==> best == -1
      invariant forall j | 0 <= j <= split && j < k :: SplitSum(a[..mid], a[mid..], b, j) <= best
      invariant forall j | split < j < k :: SplitSum(a[..mid], a[mid..], b, j) < best
    {
      assert Part(b, |b| - k, true) == b[k..] && Part(b, k, false) == b[..k];
      var sum := headRow[k] + tailRow[|b| - k];
      if sum >= best {
        best, split := sum, k;
      }
    }
    WalkSplits(a[..mid], a[mid..], b, split);
    assert a == a[..mid] + a[mid..];
    ghost var w1, w2;
    res, w1 := Hirschberg(a[..mid], b[..split], out);
    res, w2 := Hirschberg(a[mid..], b[split..], res);
    work := headWork + tailWork + w1 + w2;
    WorkSplits(|a|, |b|, mid, split);
  }

  /** The single-row base case: x once, when b holds it. */
  method ScanLast<T(==)>(x: T, b: seq<T>, out: seq<T>) returns (res: seq<T>, ghost work: nat)
    ensures res == out + Walk([x], b)
    ensures work <= WorkBound(1, |b|)
  {
    WalkSingle(x, b);
    var i := |b| - 1;
    work := 0;
    while i >= 0
      invariant -1 <= i < |b|
      invariant x !in b[i + 1..]
      invariant work == |b| - 1 - i
    {
      work := work + 1;
      if b[i] == x {
        return out + [x], work;
      }
      i := i - 1;
    }
    assert b[0..] == b;
    res := out;
  }

  /** The trimmed LCS: shared head and tail lines never reach the quadratic core,
      and the answer is the one the core gives on the untrimmed input. */
  method Lcs<T(==)>(a: seq<T>, b: seq<T>) returns (res: seq<T>)
    ensures res == Walk(a, b)
  {
    hide Walk, Len;
    WalkEmpty(a);
    WalkEmpty(b);
    if |a| == 0 || |b| == 0 {
      return [];
    }
    var head := 0;
    while head < |a| && head < |b| && a[head] == b[head]
      invariant 0 <= head <= |a| && head <= |b|
      invariant a[..head] == b[..head]
    {
      head := head + 1;
    }
    var tail := 0;
    while tail < |a| - head && tail < |b| - head && a[|a| - 1 - tail] == b[|b| - 1 - tail]
      invariant 0 <= tail <= |a| - head && tail <= |b| - head
      invariant a[|a| - tail..] == b[|b| - tail..]
    {
      assert a[|a| - (tail + 1)..] == [a[|a| - 1 - tail]] + a[|a| - tail..];
      assert b[|b| - (tail + 1)..] == [b[|b| - 1 - tail]] + b[|b| - tail..];
      tail := tail + 1;
    }
    var coreA, coreB := a[head..|a| - tail], b[head..|b| - tail];
    ghost var work;
    res, work := Hirschberg(coreA, coreB, a[..head]);
    TrimmingIsTransparent(a[..head], coreA, coreB, a[|a| - tail..]);
    assert a == a[..head] + coreA + a[|a| - tail..];
    assert b == a[..head] + coreB + a[|a| - tail..];
    res := res + a[|a| - tail..];
  }

  /** Shared leading and trailing lines belong to the canonical subsequence. */
  lemma TrimmingIsTransparent<T>(head: seq<T>, a: seq<T>, b: seq<T>, tail: seq<T>)
    ensures Walk(head + a + tail, head + b + tail) == head + Walk(a, b) + tail
  {
    hide Walk;
    WalkSuffix(head + a, head + b, tail);
    WalkPrefix(head, a, b);
  }

  // --- Anchors ---------------------------------------------------------------------

  /** The first position of x in xs at or after i, or |xs|. */
  ghost function IndexFrom<T>(xs: seq<T>, x: T, i: nat): (p: nat)
    requires i <= |xs|
    ensures i <= p <= |xs|
    ensures p < |xs| ==> xs[p] == x
    ensures forall k | i <= k < p :: xs[k] != x
    decreases |xs| - i
  {
    if i == |xs| || xs[i] == x then i else IndexFrom(xs, x, i + 1)
  }

  /** Positions of the leftmost embedding of s into a that starts at i. */
  ghost function FirstFit<T>(s: seq<T>, a: seq<T>, i: nat): (f: seq<int>)
    requires i <= |a|
    ensures |f| <= |s|
    decreases |s|
  {
    if s == [] then []
    else
      var p := IndexFrom(a, s[0], i);
      if p == |a| then [] else [p] + FirstFit(s[1..], a, p + 1)
  }

  /** p is the first position of x at or after lo. */
  ghost predicate IsFirst<T>(a: seq<T>, x: T, lo: int, p: int) {
    && 0 <= lo <= p < |a|
    && a[p] == x
    && forall i | lo <= i < p :: a[i] != x
  }

  ghost function After(f: seq<int>, k: int, start: int): int
    requires 0 <= k <= |f|
  {
    if k == 0 then start else f[k - 1] + 1
  }

  ghost predicate FirstAt<T>(s: seq<T>, a: seq<T>, f: seq<int>, start: nat, k: nat)
    requires k < |f| == |s|
  {
    IsFirst(a, s[k], After(f, k, start), f[k])
  }

  /** f embeds s and every step of it is the earliest possible one. */
  ghost predicate IsFirstFit<T>(s: seq<T>, a: seq<T>, f: seq<int>, start: nat) {
    && |f| == |s|
    && forall k | 0 <= k < |f| :: FirstAt(s, a, f, start, k)
  }

  lemma {:induction false} FirstFitIncreases<T>(s: seq<T>, a: seq<T>, f: seq<int>, start: nat, j: nat, k: nat)
    requires IsFirstFit(s, a, f, start) && j < k < |f|
    ensures f[j] < f[k]
  {
    assert FirstAt(s, a, f, start, k);
    if j < k - 1 {
      FirstFitIncreases(s, a, f, start, j, k - 1);
    }
  }

  lemma FirstFitEmbeds<T>(s: seq<T>, a: seq<T>, f: seq<int>, start: nat)
    requires IsFirstFit(s, a, f, start)
    ensures Embeds(s, a, f)
  {
    forall j, k | 0 <= j < k < |f| ensures f[j] < f[k] {
      FirstFitIncreases(s, a, f, start, j, k);
    }
    forall k | 0 <= k < |f| ensures 0 <= f[k] < |a| && a[f[k]] == s[k] {
      assert FirstAt(s, a, f, start, k);
    }
  }

  lemma {:induction false} FirstFitFits<T>(s: seq<T>, a: seq<T>, i: nat, h: seq<int>)
    requires i <= |a| && Embeds(s, a, h) && (h != [] ==> i <= h[0])
    ensures IsFirstFit(s, a, FirstFit(s, a, i), i)
    decreases |s|
  {
    if s != [] {
      hide IsFirstFit;
      var p := IndexFrom(a, s[0], i);
      assert p <= h[0] && a[p] == s[0];
      assert Embeds(s[1..], a, h[1..]);
      FirstFitFits(s[1..], a, p + 1, h[1..]);
      FirstFitCons(s, a, i, p, FirstFit(s[1..], a, p + 1));
    }
  }

  lemma FirstFitCons<T>(s: seq<T>, a: seq<T>, i: nat, p: nat, g: seq<int>)
    requires s != [] && IsFirst(a, s[0], i, p) && IsFirstFit(s[1..], a, g, p + 1)
    ensures IsFirstFit(s, a, [p] + g, i)
  {
    var f := [p] + g;
    forall k | 0 <= k < |f| ensures FirstAt(s, a, f, i, k) {
      if k > 0 {
        assert FirstAt(s[1..], a, g, p + 1, k - 1);
        assert f[k] == g[k - 1] && s[k] == s[1..][k - 1];
        assert After(f, k, i) == After(g, k - 1, p + 1);
      }
    }
  }

  /** The map that sends f[k] to g[k] and every other index below n to -1. */
  ghost function AnchorMap(n: nat, f: seq<int>, g: seq<int>): (m: seq<int>)
    requires |f| == |g| && forall k | 0 <= k < |f| :: 0 <= f[k] < n
    ensures |m| == n
  {
    if f == [] then seq(n, _ => -1)
    else AnchorMap(n, f[..|f| - 1], g[..|g| - 1])[f[|f| - 1] := g[|g| - 1]]
  }

  /** The canonical alignment: leftmost occurrences of the canonical LCS. */
  ghost function Align<T>(base: seq<T>, target: seq<T>): (m: seq<int>)
    ensures |m| == |base|
  {
    var common := Walk(base, target);
    var f, g := FirstFit(common, base, 0), FirstFit(common, target, 0);
    CommonFits(base, target);
    AnchorMap(|base|, f, g)
  }

  lemma CommonFits<T>(base: seq<T>, target: seq<T>)
    ensures var common := Walk(base, target);
            && IsFirstFit(common, base, FirstFit(common, base, 0), 0)
            && IsFirstFit(common, target, FirstFit(common, target, 0), 0)
            && Embeds(common, base, FirstFit(common, base, 0))
            && Embeds(common, target, FirstFit(common, target, 0))
            && |common| == Len(base, target)
  {
    hide Walk, Len, FirstFit;
    var common := Walk(base, target);
    var f, g := WalkEmbeds(base, target);
    FirstFitFits(common, base, 0, f);
    FirstFitFits(common, target, 0, g);
    FirstFitEmbeds(common, base, FirstFit(common, base, 0), 0);
    FirstFitEmbeds(common, target, FirstFit(common, target, 0), 0);
  }

  lemma AnchorMapStart(n: nat, f: seq<int>, g: seq<int>)
    requires f == g == []
    ensures AnchorMap(n, f, g) == seq(n, _ => -1)
  {
  }

  lemma AnchorMapStep(n: nat, f: seq<int>, g: seq<int>, k: nat)
    requires |f| == |g| && k < |f| && forall k | 0 <= k < |f| :: 0 <= f[k] < n
    ensures AnchorMap(n, f[..k + 1], g[..k + 1]) == AnchorMap(n, f[..k], g[..k])[f[k] := g[k]]
  {
    assert f[..k + 1][..k] == f[..k] && g[..k + 1][..k] == g[..k];
  }

  /** Each step of a first fit finds the first line it can. */
  lemma FitStep<T>(s: seq<T>, a: seq<T>, f: seq<int>, k: nat)
    requires IsFirstFit(s, a, f, 0) && k < |f|
    ensures |f| == |s| && IsFirst(a, s[k], After(f, k, 0), f[k])
    ensures After(f, k + 1, 0) == f[k] + 1 && 0 <= After(f, k, 0) <= f[k] < |a|
  {
    assert FirstAt(s, a, f, 0, k);
  }

  lemma FitBounds<T>(s: seq<T>, a: seq<T>, f: seq<int>)
    requires IsFirstFit(s, a, f, 0)
    ensures |f| == |s| && After(f, 0, 0) == 0 && forall k | 0 <= k < |f| :: 0 <= f[k] < |a|
  {
    FirstFitEmbeds(s, a, f, 0);
  }

  /** The anchor map of two texts, by one pass of two cursors over both. */
  method AlignLcs<T(==)>(base: seq<T>, target: seq<T>) returns (m: array<int>)
    ensures m[..] == Align(base, target)
  {
    hide Walk, Len, FirstFit, AnchorMap, IsFirstFit, Embeds, After;
    m := new int[|base|](_ => -1);
    ghost var f := FirstFit(Walk(base, target), base, 0);
    ghost var g := FirstFit(Walk(base, target), target, 0);
    CommonFits(base, target);
    FitBounds(Walk(base, target), base, f);
    FitBounds(Walk(base, target), target, g);
    AnchorMapStart(|base|, f[..0], g[..0]);
    assert f[..|f|] == f && g[..|g|] == g;
    if |base| == 0 || |target| == 0 {
      WalkEmpty(base);
      WalkEmpty(target);
      return;
    }
    var common := Lcs(base, target);
    var ci, ti, bi := 0, 0, 0;
    while ci < |common| && bi < |base| && ti < |target|
      invariant 0 <= ci <= |common|
      invariant bi == After(f, ci, 0) && ti == After(g, ci, 0)
      invariant 0 <= bi <= |base| && 0 <= ti <= |target|
      invariant ci < |common| ==> bi < |base| && ti < |target|
      invariant m.Length == |base| && fresh(m)
      invariant m[..] == AnchorMap(|base|, f[..ci], g[..ci])
      decreases |common| - ci
    {
      FitStep(common, base, f, ci);
      FitStep(common, target, g, ci);
      while bi < |base| && base[bi] != common[ci]
        invariant After(f, ci, 0) <= bi <= f[ci]
      {
        bi := bi + 1;
      }
      while ti < |target| && target[ti] != common[ci]
        invariant After(g, ci, 0) <= ti <= g[ci]
      {
        ti := ti + 1;
      }
      if bi < |base| && ti < |target| {
        AnchorMapStep(|base|, f, g, ci);
        m[bi] := ti;
        bi := bi + 1;
        ti := ti + 1;
        ci := ci + 1;
        if ci < |common| {
          FitStep(common, base, f, ci);
          FitStep(common, target, g, ci);
        }
      }
    }
  }

  // --- What the anchor map is --------------------------------------------------------

  /** Anchored pairs are equal lines and never cross. */
  ghost predicate IsAlignment<T>(base: seq<T>, target: seq<T>, m: seq<int>) {
    && |m| == |base|
    && (forall i | 0 <= i < |m| :: m[i] == -1 || (0 <= m[i] < |target| && base[i] == target[m[i]]))
    && (forall i, j | 0 <= i < j < |m| && m[i] >= 0 && m[j] >= 0 :: m[i] < m[j])
  }

  ghost function AnchorCount(m: seq<int>): nat {
    if m == [] then 0 else (if m[|m| - 1] >= 0 then 1 else 0) + AnchorCount(m[..|m| - 1])
  }

  ghost predicate Increasing(f: seq<int>, n: nat) {
    && (forall k | 0 <= k < |f| :: 0 <= f[k] < n)
    && (forall j, k | 0 <= j < k < |f| :: f[j] < f[k])
  }

  lemma {:induction false} AnchorMapAt(n: nat, f: seq<int>, g: seq<int>, k: nat)
    requires |f| == |g| && Increasing(f, n) && k < |f|
    ensures AnchorMap(n, f, g)[f[k]] == g[k]
    decreases |f|
  {
    var l := |f| - 1;
    if k < l {
      AnchorMapAt(n, f[..l], g[..l], k);
    }
  }

  lemma {:induction false} AnchorMapElse(n: nat, f: seq<int>, g: seq<int>, i: nat)
    requires |f| == |g| && Increasing(f, n) && i < n && i !in f
    ensures AnchorMap(n, f, g)[i] == -1
    decreases |f|
  {
    if f != [] {
      var l := |f| - 1;
      AnchorMapElse(n, f[..l], g[..l], i);
    }
  }

  lemma {:induction false} AnchorMapCount(n: nat, f: seq<int>, g: seq<int>)
    requires |f| == |g| && Increasing(f, n) && forall k | 0 <= k < |g| :: 0 <= g[k]
    ensures AnchorCount(AnchorMap(n, f, g)) == |f|
    decreases |f|
  {
    if f == [] {
      NoAnchors(n);
    } else {
      var l := |f| - 1;
      AnchorMapCount(n, f[..l], g[..l]);
      AnchorMapElse(n, f[..l], g[..l], f[l]);
      CountUpdate(AnchorMap(n, f[..l], g[..l]), f[l], g[l]);
    }
  }

  lemma {:induction false} NoAnchors(n: nat)
    ensures AnchorCount(seq(n, _ => -1)) == 0
  {
    if n > 0 {
      assert seq(n, _ => -1)[..n - 1] == seq(n - 1, _ => -1);
      NoAnchors(n - 1);
    }
  }

  lemma {:induction false} CountUpdate(m: seq<int>, i: nat, v: int)
    requires i < |m| && m[i] < 0 && v >= 0
    ensures AnchorCount(m[i := v]) == AnchorCount(m) + 1
    decreases |m|
  {
    var l := |m| - 1;
    if i == l {
      assert m[i := v][..l] == m[..l];
    } else {
      assert m[i := v][..l] == m[..l][i := v];
      CountUpdate(m[..l], i, v);
    }
  }

  lemma AnchorMapIsAlignment<T>(common: seq<T>, base: seq<T>, f: seq<int>, target: seq<T>, g: seq<int>)
    requires Embeds(common, base, f) && Embeds(common, target, g)
    ensures IsAlignment(base, target, AnchorMap(|base|, f, g))
  {
    hide AnchorMap;
    var m := AnchorMap(|base|, f, g);
    forall i | 0 <= i < |m|
      ensures m[i] == -1 || exists k :: 0 <= k < |f| && f[k] == i && m[i] == g[k]
    {
      if i in f {
        var k :| 0 <= k < |f| && f[k] == i;
        AnchorMapAt(|base|, f, g, k);
      } else {
        AnchorMapElse(|base|, f, g, i);
      }
    }
  }

  /** The anchor map pairs equal lines in order, as many of them as the longest
      common subsequence has. */
  lemma AlignIsAlignment<T>(base: seq<T>, target: seq<T>)
    ensures IsAlignment(base, target, Align(base, target))
    ensures AnchorCount(Align(base, target)) == Len(base, target)
  {
    hide Walk, Len, FirstFit, AnchorMap, AnchorCount;
    var common := Walk(base, target);
    var f, g := FirstFit(common, base, 0), FirstFit(common, target, 0);
    CommonFits(base, target);
    AnchorMapIsAlignment(common, base, f, target, g);
    AnchorMapCount(|base|, f, g);
  }

  lemma WalkSelf<T>(base: seq<T>)
    ensures Walk(base, base) == base
  {
    WalkSuffix([], [], base);
    assert [] + base == base;
  }

  /** A text aligned with itself anchors every line where it stands. */
  lemma AlignSelf<T>(base: seq<T>)
    ensures forall i | 0 <= i < |base| :: Align(base, base)[i] == i
  {
    hide Walk, Len, FirstFit, AnchorMap;
    WalkSelf(base);
    var f := FirstFit(Walk(base, base), base, 0);
    CommonFits(base, base);
    FullEmbeddingIsIdentity(base, f);
    forall i | 0 <= i < |base| ensures Align(base, base)[i] == i {
      AnchorMapAt(|base|, f, f, i);
      assert f[i] == i;
    }
  }

  /** Only the identity embeds a sequence into itself. */
  lemma {:induction false} FullEmbeddingIsIdentity<T>(s: seq<T>, f: seq<int>)
    requires Embeds(s, s, f)
    ensures forall i | 0 <= i < |s| :: f[i] == i
  {
    forall i | 0 <= i < |s| ensures f[i] == i {
      EmbeddingLower(s, f, i);
      EmbeddingUpper(s, f, i);
    }
  }

  lemma {:induction false} EmbeddingUpper<T>(s: seq<T>, f: seq<int>, i: nat)
    requires Embeds(s, s, f) && i < |s|
    ensures f[i] <= i
    decreases |s| - i
  {
    if i + 1 < |s| {
      EmbeddingUpper(s, f, i + 1);
    }
  }

  lemma {:induction false} EmbeddingLower<T>(s: seq<T>, f: seq<int>, i: nat)
    requires Embeds(s, s, f) && i < |s|
    ensures f[i] >= i
  {
    if i > 0 {
      EmbeddingLower(s, f, i - 1);
    }
  }
}
