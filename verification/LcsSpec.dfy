/** Longest common subsequences of two line sequences: what "longest" means,
    the length table, the textbook walk back through that table, and the one
    split point at which the walk falls apart into two independent walks. */
module LcsSpec {

  // --- What a common subsequence is ------------------------------------------

  /** f places s inside a: strictly increasing positions holding equal lines. */
  ghost predicate Embeds<T>(s: seq<T>, a: seq<T>, f: seq<int>) {
    && |f| == |s|
    && (forall i | 0 <= i < |f| :: 0 <= f[i] < |a| && a[f[i]] == s[i])
    && (forall i, j | 0 <= i < j < |f| :: f[i] < f[j])
  }

  ghost predicate IsSubsequence<T>(s: seq<T>, a: seq<T>) {
    exists f :: Embeds(s, a, f)
  }

  /** s is a common subsequence of a and b, and none is longer. */
  ghost predicate IsLongestCommon<T(!new)>(s: seq<T>, a: seq<T>, b: seq<T>) {
    && IsSubsequence(s, a) && IsSubsequence(s, b)
    && forall t: seq<T> :: IsSubsequence(t, a) && IsSubsequence(t, b) ==> |t| <= |s|
  }

  // --- The length table --------------------------------------------------------

  function Max(x: nat, y: nat): nat { if x >= y then x else y }

  /** The entry of the length table for the whole of a against the whole of b. */
  ghost function Len<T>(a: seq<T>, b: seq<T>): nat
    decreases |a| + |b|
  {
    if a == [] || b == [] then 0
    else
      var a', x, b', y := a[..|a| - 1], a[|a| - 1], b[..|b| - 1], b[|b| - 1];
      if x == y then Len(a', b') + 1 else Max(Len(a', b), Len(a, b'))
  }

  lemma LenEmpty<T>(a: seq<T>)
    ensures Len(a, []) == Len([], a) == 0
  {
  }

  lemma LenSnoc<T>(a: seq<T>, x: T, b: seq<T>, y: T)
    ensures Len(a + [x], b + [y])
         == if x == y then Len(a, b) + 1 else Max(Len(a, b + [y]), Len(a + [x], b))
  {
    assert (a + [x])[..|a|] == a && (b + [y])[..|b|] == b;
  }

  lemma {:induction false} LenSymmetric<T>(a: seq<T>, b: seq<T>)
    ensures Len(a, b) == Len(b, a)
    decreases |a| + |b|
  {
    if a != [] && b != [] {
      LenSymmetric(a[..|a| - 1], b[..|b| - 1]);
      LenSymmetric(a[..|a| - 1], b);
      LenSymmetric(a, b[..|b| - 1]);
    }
  }

  lemma {:induction false} RowStep<T>(a: seq<T>, x: T, b: seq<T>)
    ensures Len(a, b) <= Len(a + [x], b) <= Len(a, b) + 1
    decreases |a| + |b|
  {
    if b != [] {
      var b', y := b[..|b| - 1], b[|b| - 1];
      assert b == b' + [y];
      LenSnoc(a, x, b', y);
      RowStep(a, x, b');
      RowStep(b', y, a);
      LenSymmetric(a, b');
      LenSymmetric(a, b);
    }
  }

  lemma ColumnStep<T>(a: seq<T>, b: seq<T>, y: T)
    ensures Len(a, b) <= Len(a, b + [y]) <= Len(a, b) + 1
  {
    RowStep(b, y, a);
    LenSymmetric(a, b);
    LenSymmetric(a, b + [y]);
  }

  lemma {:induction false} LenMonotone<T>(a: seq<T>, a2: seq<T>, b: seq<T>, b2: seq<T>)
    ensures Len(a, b) <= Len(a + a2, b + b2)
    decreases |a2| + |b2|
  {
    if a2 != [] {
      var i := |a2| - 1;
      assert a + a2 == (a + a2[..i]) + [a2[i]];
      LenMonotone(a, a2[..i], b, b2);
      RowStep(a + a2[..i], a2[i], b + b2);
    } else if b2 != [] {
      var i := |b2| - 1;
      assert b + b2 == (b + b2[..i]) + [b2[i]];
      LenMonotone(a, a2, b, b2[..i]);
      ColumnStep(a + a2, b + b2[..i], b2[i]);
    } else {
      assert a + a2 == a && b + b2 == b;
    }
  }

  lemma {:induction false} LenConcat<T>(a1: seq<T>, a2: seq<T>, b1: seq<T>, b2: seq<T>)
    ensures Len(a1, b1) + Len(a2, b2) <= Len(a1 + a2, b1 + b2)
    decreases |a2| + |b2|
  {
    if a2 == [] || b2 == [] {
      LenMonotone(a1, a2, b1, b2);
    } else {
      var a', x, b', y := a2[..|a2| - 1], a2[|a2| - 1], b2[..|b2| - 1], b2[|b2| - 1];
      assert a2 == a' + [x] && b2 == b' + [y];
      assert a1 + a2 == (a1 + a') + [x] && b1 + b2 == (b1 + b') + [y];
      LenSnoc(a1 + a', x, b1 + b', y);
      LenConcat(a1, a', b1, b');
      LenConcat(a1, a', b1, b2);
      LenConcat(a1, a2, b1, b');
    }
  }

  /** The table may equally be filled from the front. */
  lemma {:induction false} LenCons<T>(x: T, a: seq<T>, y: T, b: seq<T>)
    ensures Len([x] + a, [y] + b)
         == if x == y then Len(a, b) + 1 else Max(Len(a, [y] + b), Len([x] + a, b))
    decreases |a| + |b|
  {
    hide Len;
    LenEmpty([x] + a);
    LenEmpty([y] + b);
    LenEmpty(a);
    LenEmpty(b);
    if a == [] {
      assert [x] + a == [x];
      LenSingle(x, b);
      LenSingle(x, [y] + b);
    } else if b == [] {
      assert [y] + b == [y];
      LenSingle(y, a);
      LenSingle(y, [x] + a);
      LenSymmetric([y], a);
      LenSymmetric([y], [x] + a);
    } else {
      var a', w, b', z := a[..|a| - 1], a[|a| - 1], b[..|b| - 1], b[|b| - 1];
      assert a == a' + [w] && b == b' + [z];
      assert [x] + a == ([x] + a') + [w] && [y] + b == ([y] + b') + [z];
      LenSnoc([x] + a', w, [y] + b', z);
      LenSnoc(a', w, [y] + b', z);
      LenSnoc([x] + a', w, b', z);
      LenSnoc(a', w, b', z);
      LenCons(x, a', y, b');
      LenCons(x, a', y, b);
      LenCons(x, a, y, b');
    }
  }

  lemma {:induction false} LenSingle<T>(x: T, b: seq<T>)
    ensures Len([x], b) == if x in b then 1 else 0
  {
    if b != [] {
      LenSingle(x, b[..|b| - 1]);
      assert b == b[..|b| - 1] + [b[|b| - 1]];
    }
  }

  // --- Uncrossing: the table is submodular -------------------------------------

  /** A new last row gains at least as much when b has one more column in front. */
  lemma {:induction false} UncrossRow<T>(a: seq<T>, x: T, y: T, c: seq<T>)
    ensures Len(a, [y] + c) + Len(a + [x], c) <= Len(a + [x], [y] + c) + Len(a, c)
    decreases |a| + |c|
  {
    RowStep(a, x, [y] + c);
    if c != [] {
      var c', z := c[..|c| - 1], c[|c| - 1];
      assert c == c' + [z] && [y] + c == ([y] + c') + [z];
      LenSnoc(a, x, c', z);
      LenSnoc(a, x, [y] + c', z);
      UncrossColumn(a, y, c', z);
      UncrossRow(a, x, y, c');
    }
  }

  /** A new first column gains at most as much once b has one more column behind. */
  lemma {:induction false} UncrossColumn<T>(a: seq<T>, y: T, c: seq<T>, z: T)
    ensures Len(a, [y] + c + [z]) + Len(a, c) <= Len(a, [y] + c) + Len(a, c + [z])
    decreases |a| + |c|
  {
    if a != [] {
      var a', x := a[..|a| - 1], a[|a| - 1];
      assert a == a' + [x];
      LenSnoc(a', x, [y] + c, z);
      LenSnoc(a', x, c, z);
      UncrossRow(a', x, y, c);
      UncrossColumn(a', y, c, z);
      ColumnStep(a, c, z);
    }
  }

  // --- The walk back ------------------------------------------------------------

  /** The textbook recovery of a subsequence from the full table, starting at the
      end of both inputs: take a match when there is one, otherwise prefer to
      drop the last line of a. */
  ghost function Walk<T>(a: seq<T>, b: seq<T>): seq<T>
    decreases |a| + |b|
  {
    if a == [] || b == [] then []
    else
      var a', x, b', y := a[..|a| - 1], a[|a| - 1], b[..|b| - 1], b[|b| - 1];
      if x == y then Walk(a', b') + [x]
      else if Len(a', b) >= Len(a, b') then Walk(a', b)
      else Walk(a, b')
  }

  lemma {:induction false} WalkEmbeds<T>(a: seq<T>, b: seq<T>) returns (f: seq<int>, g: seq<int>)
    ensures Embeds(Walk(a, b), a, f) && Embeds(Walk(a, b), b, g)
    ensures |Walk(a, b)| == Len(a, b)
    decreases |a| + |b|
  {
    if a == [] || b == [] {
      f, g := [], [];
    } else {
      var n, m := |a| - 1, |b| - 1;
      if a[n] == b[m] {
        f, g := WalkEmbeds(a[..n], b[..m]);
        EmbedsSnoc(Walk(a[..n], b[..m]), a, f, n);
        EmbedsSnoc(Walk(a[..n], b[..m]), b, g, m);
        f, g := f + [n], g + [m];
      } else if Len(a[..n], b) >= Len(a, b[..m]) {
        f, g := WalkEmbeds(a[..n], b);
        EmbedsLonger(Walk(a, b), a, f, n);
      } else {
        f, g := WalkEmbeds(a, b[..m]);
        EmbedsLonger(Walk(a, b), b, g, m);
      }
    }
  }

  lemma EmbedsSnoc<T>(s: seq<T>, a: seq<T>, f: seq<int>, n: nat)
    requires n < |a| && Embeds(s, a[..n], f)
    ensures Embeds(s + [a[n]], a, f + [n])
  {
  }

  lemma EmbedsLonger<T>(s: seq<T>, a: seq<T>, f: seq<int>, n: nat)
    requires n <= |a| && Embeds(s, a[..n], f)
    ensures Embeds(s, a, f)
  {
  }

  lemma {:induction false} LenIsUpperBound<T>(s: seq<T>, a: seq<T>, f: seq<int>, b: seq<T>, g: seq<int>)
    requires Embeds(s, a, f) && Embeds(s, b, g)
    ensures |s| <= Len(a, b)
    decreases |s|
  {
    if s != [] {
      var k := |s| - 1;
      var i, j := f[k], g[k];
      LenIsUpperBound(s[..k], a[..i], f[..k], b[..j], g[..k]);
      LenSnoc(a[..i], s[k], b[..j], s[k]);
      assert a == (a[..i] + [s[k]]) + a[i + 1..] && b == (b[..j] + [s[k]]) + b[j + 1..];
      LenMonotone(a[..i] + [s[k]], a[i + 1..], b[..j] + [s[k]], b[j + 1..]);
    }
  }

  /** The walk recovers a longest common subsequence. */
  lemma WalkIsLongest<T(!new)>(a: seq<T>, b: seq<T>)
    ensures IsLongestCommon(Walk(a, b), a, b)
    ensures |Walk(a, b)| == Len(a, b)
  {
    var f, g := WalkEmbeds(a, b);
    forall t: seq<T> | IsSubsequence(t, a) && IsSubsequence(t, b)
      ensures |t| <= |Walk(a, b)|
    {
      var f' :| Embeds(t, a, f');
      var g' :| Embeds(t, b, g');
      LenIsUpperBound(t, a, f', b, g');
    }
  }

  // --- Common prefixes and suffixes ---------------------------------------------

  lemma WalkEmpty<T>(a: seq<T>)
    ensures Walk(a, []) == Walk([], a) == []
  {
  }

  lemma WalkSnoc<T>(a: seq<T>, x: T, b: seq<T>, y: T)
    ensures Walk(a + [x], b + [y])
         == if x == y then Walk(a, b) + [x]
            else if Len(a, b + [y]) >= Len(a + [x], b) then Walk(a, b + [y])
            else Walk(a + [x], b)
  {
    assert (a + [x])[..|a|] == a && (b + [y])[..|b|] == b;
  }

  lemma {:induction false} WalkSuffix<T>(a: seq<T>, b: seq<T>, s: seq<T>)
    ensures Walk(a + s, b + s) == Walk(a, b) + s
    decreases |s|
  {
    if s == [] {
      assert a + s == a && b + s == b;
    } else {
      var s', x := s[..|s| - 1], s[|s| - 1];
      assert a + s == (a + s') + [x] && b + s == (b + s') + [x];
      WalkSnoc(a + s', x, b + s', x);
      WalkSuffix(a, b, s');
      assert Walk(a, b) + s == Walk(a, b) + s' + [x];
    }
  }

  lemma {:induction false} WalkConsRow<T>(x: T, b: seq<T>)
    ensures Walk([x], [x] + b) == [x]
  {
    assert [x] == [] + [x];
    if b == [] {
      WalkSnoc([], x, [], x);
    } else {
      var b', z := b[..|b| - 1], b[|b| - 1];
      assert [x] + b == ([x] + b') + [z];
      WalkSnoc([], x, [x] + b', z);
      LenSingle(x, [x] + b');
      WalkConsRow(x, b');
    }
  }

  lemma {:induction false} WalkConsColumn<T>(x: T, a: seq<T>)
    ensures Walk([x] + a, [x]) == [x]
  {
    assert [x] == [] + [x];
    if a == [] {
      WalkSnoc([], x, [], x);
    } else {
      var a', w := a[..|a| - 1], a[|a| - 1];
      assert [x] + a == ([x] + a') + [w];
      WalkSnoc([x] + a', w, [], x);
      WalkConsColumn(x, a');
    }
  }

  lemma {:induction false} WalkCons<T>(x: T, a: seq<T>, b: seq<T>)
    ensures Walk([x] + a, [x] + b) == [x] + Walk(a, b)
    decreases |a| + |b|
  {
    hide Walk, Len;
    WalkEmpty(a);
    WalkEmpty(b);
    if a == [] {
      WalkConsRow(x, b);
      assert [x] + a == [x];
    } else if b == [] {
      WalkConsColumn(x, a);
      assert [x] + b == [x];
    } else {
      var a', w, b', z := a[..|a| - 1], a[|a| - 1], b[..|b| - 1], b[|b| - 1];
      assert a == a' + [w] && b == b' + [z];
      assert [x] + a == ([x] + a') + [w] && [x] + b == ([x] + b') + [z];
      WalkSnoc([x] + a', w, [x] + b', z);
      WalkSnoc(a', w, b', z);
      if w == z {
        WalkCons(x, a', b');
        assert [x] + (Walk(a', b') + [w]) == ([x] + Walk(a', b')) + [w];
      } else {
        LenConsMiss(x, a', w, b', z);
        WalkCons(x, a', b);
        WalkCons(x, a, b');
      }
    }
  }

  lemma LenConsMiss<T>(x: T, a: seq<T>, w: T, b: seq<T>, z: T)
    ensures Len([x] + a, ([x] + b) + [z]) == Len(a, b + [z]) + 1
    ensures Len(([x] + a) + [w], [x] + b) == Len(a + [w], b) + 1
  {
    hide Len;
    LenCons(x, a, x, b + [z]);
    LenCons(x, a + [w], x, b);
    assert ([x] + a) + [w] == [x] + (a + [w]) && ([x] + b) + [z] == [x] + (b + [z]);
  }

  lemma {:induction false} WalkPrefix<T>(p: seq<T>, a: seq<T>, b: seq<T>)
    ensures Walk(p + a, p + b) == p + Walk(a, b)
    decreases |p|
  {
    hide Walk;
    if p == [] {
      assert p + a == a && p + b == b;
    } else {
      WalkPrefix(p[1..], a, b);
      WalkCons(p[0], p[1..] + a, p[1..] + b);
      assert p + a == [p[0]] + (p[1..] + a) && p + b == [p[0]] + (p[1..] + b);
      assert p == [p[0]] + p[1..];
    }
  }

  // --- The rightmost path ---------------------------------------------------------

  /** The path through the table that leaves every row as far right as an optimal
      path can: drop the last line of a whenever that costs nothing. */
  ghost function Rightmost<T>(a: seq<T>, b: seq<T>): seq<T>
    decreases |a| + |b|
  {
    if a == [] || b == [] then []
    else
      var a', x, b', y := a[..|a| - 1], a[|a| - 1], b[..|b| - 1], b[|b| - 1];
      if Len(a', b) == Len(a, b) then Rightmost(a', b)
      else if x == y then Rightmost(a', b') + [x]
      else Rightmost(a, b')
  }

  lemma RightmostEmpty<T>(a: seq<T>)
    ensures Rightmost(a, []) == Rightmost([], a) == []
  {
  }

  lemma RightmostSnoc<T>(a: seq<T>, x: T, b: seq<T>, y: T)
    ensures Rightmost(a + [x], b + [y])
         == if Len(a, b + [y]) == Len(a + [x], b + [y]) then Rightmost(a, b + [y])
            else if x == y then Rightmost(a, b) + [x]
            else Rightmost(a + [x], b)
  {
    assert (a + [x])[..|a|] == a && (b + [y])[..|b|] == b;
  }

  /** A row that adds no length adds nothing to the rightmost path. */
  lemma RightmostIdleRow<T>(a: seq<T>, x: T, b: seq<T>)
    requires Len(a + [x], b) == Len(a, b)
    ensures Rightmost(a + [x], b) == Rightmost(a, b)
  {
    if b != [] {
      assert b == b[..|b| - 1] + [b[|b| - 1]];
      RightmostSnoc(a, x, b[..|b| - 1], b[|b| - 1]);
    }
  }

  /** A column every optimum needs is the last line of the rightmost path. */
  lemma {:induction false} RightmostNeededColumn<T>(a: seq<T>, b: seq<T>, z: T)
    requires Len(a, b + [z]) > Len(a, b)
    ensures Rightmost(a, b + [z]) == Rightmost(a, b) + [z]
    decreases |a|
  {
    if a != [] {
      var a', x := a[..|a| - 1], a[|a| - 1];
      assert a == a' + [x];
      RightmostSnoc(a', x, b, z);
      LenSnoc(a', x, b, z);
      RowStep(a', x, b);
      RowStep(a', x, b + [z]);
      ColumnStep(a', b, z);
      ColumnStep(a, b, z);
      if Len(a', b + [z]) == Len(a, b + [z]) {
        RightmostNeededColumn(a', b, z);
        RightmostIdleRow(a', x, b);
      } else {
        assert x == z;
        RightmostIdleRow(a', x, b);
      }
    }
  }

  /** Both walks recover the same lines. */
  lemma {:induction false} WalkIsRightmost<T>(a: seq<T>, b: seq<T>)
    ensures Walk(a, b) == Rightmost(a, b)
    decreases |a| + |b|
  {
    if a != [] && b != [] {
      var a', x, b', y := a[..|a| - 1], a[|a| - 1], b[..|b| - 1], b[|b| - 1];
      assert a == a' + [x] && b == b' + [y];
      LenSnoc(a', x, b', y);
      WalkIsRightmost(a', b');
      WalkIsRightmost(a', b);
      WalkIsRightmost(a, b');
      if x == y && Len(a', b) == Len(a, b) {
        RightmostNeededColumn(a', b', y);
      }
    }
  }

  // --- The split ---------------------------------------------------------------------

  /** What is left when b is cut at k: the front half of a against the front of b,
      the back half of a against the rest. */
  ghost function SplitSum<T>(a1: seq<T>, a2: seq<T>, b: seq<T>, k: nat): nat
    requires k <= |b|
  {
    Len(a1, b[..k]) + Len(a2, b[k..])
  }

  /** k is the largest cut of greatest sum: the tie-break. */
  ghost predicate LargestBestSplit<T>(a1: seq<T>, a2: seq<T>, b: seq<T>, k: nat) {
    && k <= |b|
    && (forall j | 0 <= j <= k :: SplitSum(a1, a2, b, j) <= SplitSum(a1, a2, b, k))
    && (forall j | k < j <= |b| :: SplitSum(a1, a2, b, j) < SplitSum(a1, a2, b, k))
  }

  lemma SplitSumBound<T>(a1: seq<T>, a2: seq<T>, b: seq<T>, k: nat)
    requires k <= |b|
    ensures SplitSum(a1, a2, b, k) <= Len(a1 + a2, b)
  {
    LenConcat(a1, a2, b[..k], b[k..]);
    assert b == b[..k] + b[k..];
  }

  /** A best split of the shorter problem is one of the longer, whichever step the
      length table takes. */
  lemma SplitAtMatch<T>(a1: seq<T>, a': seq<T>, x: T, b': seq<T>, k: nat)
    requires k <= |b'| && SplitSum(a1, a', b', k) == Len(a1 + a', b')
    ensures SplitSum(a1, a' + [x], b' + [x], k) == Len(a1 + (a' + [x]), b' + [x])
  {
    hide Len, SplitSum;
    SplitStep(a1, a', x, b', x, k);
    LenSnoc(a1 + a', x, b', x);
    assert a1 + (a' + [x]) == (a1 + a') + [x];
  }

  lemma SplitAtIdleRow<T>(a1: seq<T>, a': seq<T>, x: T, b: seq<T>, k: nat)
    requires k <= |b| && SplitSum(a1, a', b, k) == Len(a1 + a', b) == Len(a1 + (a' + [x]), b)
    ensures SplitSum(a1, a' + [x], b, k) == Len(a1 + (a' + [x]), b)
  {
    hide Len;
    RowStep(a', x, b[k..]);
    SplitSumBound(a1, a' + [x], b, k);
  }

  lemma SplitAtIdleColumn<T>(a1: seq<T>, a2: seq<T>, b': seq<T>, y: T, k: nat)
    requires k <= |b'| && SplitSum(a1, a2, b', k) == Len(a1 + a2, b') == Len(a1 + a2, b' + [y])
    ensures SplitSum(a1, a2, b' + [y], k) == Len(a1 + a2, b' + [y])
  {
    hide Len;
    assert (b' + [y])[..k] == b'[..k] && (b' + [y])[k..] == b'[k..] + [y];
    ColumnStep(a2, b'[k..], y);
    SplitSumBound(a1, a2, b' + [y], k);
  }

  lemma SplitAtEnd<T>(a1: seq<T>, b: seq<T>)
    ensures SplitSum(a1, [], b, |b|) == Len(a1 + [], b)
  {
    assert a1 + [] == a1 && b[..|b|] == b;
  }

  lemma SplitOfNone<T>(a1: seq<T>, a2: seq<T>)
    ensures SplitSum(a1, a2, [], 0) == Len(a1 + a2, [])
  {
  }

  lemma {:induction false} SplitExists<T>(a1: seq<T>, a2: seq<T>, b: seq<T>) returns (k: nat)
    ensures k <= |b| && SplitSum(a1, a2, b, k) == Len(a1 + a2, b)
    decreases |a2| + |b|
  {
    hide Len, SplitSum;
    if a2 == [] {
      k := |b|;
      SplitAtEnd(a1, b);
    } else if b == [] {
      k := 0;
      SplitOfNone(a1, a2);
    } else {
      var a', x, b', y := a2[..|a2| - 1], a2[|a2| - 1], b[..|b| - 1], b[|b| - 1];
      assert a2 == a' + [x] && b == b' + [y] && a1 + a2 == (a1 + a') + [x];
      LenSnoc(a1 + a', x, b', y);
      if x == y {
        k := SplitExists(a1, a', b');
        SplitAtMatch(a1, a', x, b', k);
      } else if Len(a1 + a2, b) == Len(a1 + a', b) {
        k := SplitExists(a1, a', b);
        SplitAtIdleRow(a1, a', x, b, k);
      } else {
        k := SplitExists(a1, a2, b');
        SplitAtIdleColumn(a1, a2, b', y, k);
      }
    }
  }

  lemma LargestBestSplitIsOptimal<T>(a1: seq<T>, a2: seq<T>, b: seq<T>, k: nat)
    requires LargestBestSplit(a1, a2, b, k)
    ensures SplitSum(a1, a2, b, k) == Len(a1 + a2, b)
  {
    var j := SplitExists(a1, a2, b);
    SplitSumBound(a1, a2, b, k);
  }

  /** A last row idle against b[j..] is idle against every shorter suffix. */
  lemma {:induction false} IdleRowStaysIdle<T>(a: seq<T>, x: T, b: seq<T>, j: nat, k: nat)
    requires j <= k <= |b|
    requires Len(a + [x], b[j..]) == Len(a, b[j..])
    ensures Len(a + [x], b[k..]) == Len(a, b[k..])
    decreases k - j
  {
    if j < k {
      assert b[j..] == [b[j]] + b[j + 1..];
      UncrossRow(a, x, b[j], b[j + 1..]);
      RowStep(a, x, b[j + 1..]);
      IdleRowStaysIdle(a, x, b, j + 1, k);
    }
  }

  /** When the last row adds nothing, dropping it leaves the tie-break where it was. */
  lemma SplitIdleRow<T>(a1: seq<T>, a': seq<T>, x: T, b: seq<T>, k: nat)
    requires LargestBestSplit(a1, a' + [x], b, k)
    requires Len(a1 + a', b) == Len(a1 + (a' + [x]), b)
    ensures LargestBestSplit(a1, a', b, k)
    ensures Len(a' + [x], b[k..]) == Len(a', b[k..])
  {
    LargestBestSplitIsOptimal(a1, a' + [x], b, k);
    var j := SplitExists(a1, a', b);
    RowStep(a', x, b[j..]);
    SplitSumBound(a1, a' + [x], b, j);
    assert j <= k;
    IdleRowStaysIdle(a', x, b, j, k);
    forall i | 0 <= i <= |b| ensures SplitSum(a1, a', b, i) <= SplitSum(a1, a' + [x], b, i) {
      RowStep(a', x, b[i..]);
    }
  }

  /** One cut of the shorter problem against the same cut of the longer one. */
  lemma SplitStep<T>(a1: seq<T>, a': seq<T>, x: T, b': seq<T>, y: T, j: nat)
    requires j <= |b'|
    ensures x == y ==> SplitSum(a1, a' + [x], b' + [y], j) == SplitSum(a1, a', b', j) + 1
    ensures x != y ==> SplitSum(a1, a' + [x], b', j) <= SplitSum(a1, a' + [x], b' + [y], j)
  {
    assert (b' + [y])[..j] == b'[..j] && (b' + [y])[j..] == b'[j..] + [y];
    LenSnoc(a', x, b'[j..], y);
    ColumnStep(a' + [x], b'[j..], y);
  }

  /** When the last row is needed, the cut survives the step the path takes. */
  lemma SplitBusyMatch<T>(a1: seq<T>, a': seq<T>, x: T, b': seq<T>, k: nat)
    requires LargestBestSplit(a1, a' + [x], b' + [x], k) && k <= |b'|
    ensures LargestBestSplit(a1, a', b', k)
  {
    forall j | 0 <= j <= |b'|
      ensures SplitSum(a1, a' + [x], b' + [x], j) == SplitSum(a1, a', b', j) + 1
    {
      SplitStep(a1, a', x, b', x, j);
    }
  }

  lemma SplitBusyMiss<T>(a1: seq<T>, a': seq<T>, x: T, b': seq<T>, y: T, k: nat)
    requires LargestBestSplit(a1, a' + [x], b' + [y], k) && k <= |b'|
    requires x != y && Len(a' + [x], b'[k..] + [y]) != Len(a', b'[k..] + [y])
    ensures LargestBestSplit(a1, a' + [x], b', k)
  {
    forall j | 0 <= j <= |b'|
      ensures SplitSum(a1, a' + [x], b', j) <= SplitSum(a1, a' + [x], b' + [y], j)
    {
      SplitStep(a1, a', x, b', y, j);
    }
    assert SplitSum(a1, a' + [x], b', k) == SplitSum(a1, a' + [x], b' + [y], k) by {
      LenSnoc(a', x, b'[k..], y);
      assert (b' + [y])[..k] == b'[..k] && (b' + [y])[k..] == b'[k..] + [y];
    }
  }

  lemma SplitBusyRowCut<T>(a1: seq<T>, a': seq<T>, x: T, b: seq<T>, k: nat)
    requires b != [] && LargestBestSplit(a1, a' + [x], b, k)
    requires Len(a1 + a', b) != Len(a1 + (a' + [x]), b)
    ensures k < |b| && Len(a' + [x], b[k..]) != Len(a', b[k..])
  {
    hide Len;
    LenEmpty(a');
    LenEmpty(a' + [x]);
    assert k == |b| ==> b[k..] == [];
    LargestBestSplitIsOptimal(a1, a' + [x], b, k);
    SplitSumBound(a1, a', b, k);
    assert a1 + (a' + [x]) == (a1 + a') + [x];
    RowStep(a1 + a', x, b);
  }

  /** Cutting at the largest best split cuts the rightmost path in two. */
  lemma {:induction false} RightmostSplits<T>(a1: seq<T>, a2: seq<T>, b: seq<T>, k: nat)
    requires LargestBestSplit(a1, a2, b, k)
    ensures Rightmost(a1 + a2, b) == Rightmost(a1, b[..k]) + Rightmost(a2, b[k..])
    decreases |a2| + |b|, 1
  {
    hide Len, Rightmost;
    if a2 == [] {
      SplitOfNothing(a1, b, k);
      RightmostEmpty(b[k..]);
      assert a1 + a2 == a1 && b[..k] == b;
    } else {
      var a', x := a2[..|a2| - 1], a2[|a2| - 1];
      assert a2 == a' + [x] && a1 + a2 == (a1 + a') + [x];
      if Len(a1 + a', b) == Len(a1 + a2, b) {
        SplitIdleRow(a1, a', x, b, k);
        RightmostSplits(a1, a', b, k);
        RightmostIdleRow(a1 + a', x, b);
        RightmostIdleRow(a', x, b[k..]);
      } else {
        LenEmpty(a1 + a');
        LenEmpty(a1 + a2);
        RightmostSplitsBusy(a1, a', x, b, k);
      }
    }
  }

  lemma {:induction false} RightmostSplitsBusy<T>(a1: seq<T>, a': seq<T>, x: T, b: seq<T>, k: nat)
    requires b != [] && LargestBestSplit(a1, a' + [x], b, k)
    requires Len(a1 + (a' + [x]), b) != Len(a1 + a', b)
    ensures Rightmost((a1 + a') + [x], b) == Rightmost(a1, b[..k]) + Rightmost(a' + [x], b[k..])
    decreases |a'| + |b| + 1, 0
  {
    hide Len, Rightmost;
    var b', y := b[..|b| - 1], b[|b| - 1];
    assert b == b' + [y] && a1 + (a' + [x]) == (a1 + a') + [x];
    SplitBusyRowCut(a1, a', x, b, k);
    assert b[..k] == b'[..k] && b[k..] == b'[k..] + [y];
    RightmostSnoc(a1 + a', x, b', y);
    RightmostSnoc(a', x, b'[k..], y);
    if x == y {
      SplitBusyMatch(a1, a', x, b', k);
      RightmostSplits(a1, a', b', k);
    } else {
      SplitBusyMiss(a1, a', x, b', y, k);
      RightmostSplits(a1, a' + [x], b', k);
    }
  }

  lemma SplitOfNothing<T>(a1: seq<T>, b: seq<T>, k: nat)
    requires LargestBestSplit(a1, [], b, k)
    ensures k == |b|
  {
    LenMonotone(a1, [], b[..k], b[k..]);
    assert a1 + [] == a1 && b[..k] + b[k..] == b && b[..|b|] == b;
    assert SplitSum(a1, [], b, k) <= SplitSum(a1, [], b, |b|);
  }

  /** The divide-and-conquer step returns what the full-table walk returns. */
  lemma WalkSplits<T>(a1: seq<T>, a2: seq<T>, b: seq<T>, k: nat)
    requires LargestBestSplit(a1, a2, b, k)
    ensures Walk(a1 + a2, b) == Walk(a1, b[..k]) + Walk(a2, b[k..])
  {
    RightmostSplits(a1, a2, b, k);
    WalkIsRightmost(a1 + a2, b);
    WalkIsRightmost(a1, b[..k]);
    WalkIsRightmost(a2, b[k..]);
  }

  lemma {:induction false} WalkSingle<T>(x: T, b: seq<T>)
    ensures Walk([x], b) == if x in b then [x] else []
  {
    if b != [] {
      var b', y := b[..|b| - 1], b[|b| - 1];
      assert b == b' + [y] && [x] == [] + [x];
      WalkSnoc([], x, b', y);
      LenSingle(x, b');
      WalkSingle(x, b');
    }
  }
}
