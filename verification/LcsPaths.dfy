/** The positions the canonical longest common subsequence matches: of all optimal paths
    through the length table, none lies further right. */
module LcsPaths {
  import opened LcsSpec

  /** A line matched at a row of a and a column of b. */
  datatype Match = Match(row: nat, column: nat)

  /** The positions the rightmost path matches in both inputs. */
  ghost function RightmostPath<T>(a: seq<T>, b: seq<T>): seq<Match>
    decreases |a| + |b|
  {
    if a == [] || b == [] then []
    else
      var a', x, b', y := a[..|a| - 1], a[|a| - 1], b[..|b| - 1], b[|b| - 1];
      if Len(a', b) == Len(a, b) then RightmostPath(a', b)
      else if x == y then RightmostPath(a', b') + [Match(|a'|, |b'|)]
      else RightmostPath(a, b')
  }

  lemma RightmostPathSnoc<T>(a: seq<T>, x: T, b: seq<T>, y: T)
    ensures RightmostPath(a + [x], b + [y])
         == if Len(a, b + [y]) == Len(a + [x], b + [y]) then RightmostPath(a, b + [y])
            else if x == y then RightmostPath(a, b) + [Match(|a|, |b|)]
            else RightmostPath(a + [x], b)
  {
    assert (a + [x])[..|a|] == a && (b + [y])[..|b|] == b;
  }

  ghost function Rows(path: seq<Match>): seq<int> {
    seq(|path|, k requires 0 <= k < |path| => path[k].row)
  }

  ghost function Columns(path: seq<Match>): seq<int> {
    seq(|path|, k requires 0 <= k < |path| => path[k].column)
  }

  lemma PathSnoc(path: seq<Match>, i: nat, j: nat)
    ensures Rows(path + [Match(i, j)]) == Rows(path) + [i] && Columns(path + [Match(i, j)]) == Columns(path) + [j]
  {
  }

  /** The path matches the lines of the rightmost answer in both inputs. */
  lemma {:induction false} RightmostPathEmbeds<T>(a: seq<T>, b: seq<T>)
    ensures Embeds(Rightmost(a, b), a, Rows(RightmostPath(a, b)))
    ensures Embeds(Rightmost(a, b), b, Columns(RightmostPath(a, b)))
    decreases |a| + |b|
  {
    if a != [] && b != [] {
      var a', x, b', y := a[..|a| - 1], a[|a| - 1], b[..|b| - 1], b[|b| - 1];
      assert a == a' + [x] && b == b' + [y];
      hide Rightmost, RightmostPath, Len, Rows, Columns;
      RightmostSnoc(a', x, b', y);
      RightmostPathSnoc(a', x, b', y);
      if Len(a', b) == Len(a, b) {
        RightmostPathEmbeds(a', b);
        EmbedsLonger(Rightmost(a', b), a, Rows(RightmostPath(a', b)), |a'|);
      } else if x == y {
        RightmostPathEmbeds(a', b');
        PathSnoc(RightmostPath(a', b'), |a'|, |b'|);
        EmbedsSnoc(Rightmost(a', b'), a, Rows(RightmostPath(a', b')), |a'|);
        EmbedsSnoc(Rightmost(a', b'), b, Columns(RightmostPath(a', b')), |b'|);
      } else {
        RightmostPathEmbeds(a, b');
        EmbedsLonger(Rightmost(a, b'), b, Columns(RightmostPath(a, b')), |b'|);
      }
    }
  }

  /** From row i on the path stays right of column k. */
  ghost predicate RightOf(path: seq<Match>, i: nat, k: nat) {
    forall m | 0 <= m < |path| && path[m].row >= i :: path[m].column >= k
  }

  lemma {:induction false} PathBounds<T>(a: seq<T>, b: seq<T>)
    ensures forall m | 0 <= m < |RightmostPath(a, b)| :: RightmostPath(a, b)[m].row < |a| && RightmostPath(a, b)[m].column < |b|
  {
    RightmostPathEmbeds(a, b);
    hide RightmostPath, Rightmost;
    var path := RightmostPath(a, b);
    forall m | 0 <= m < |path| ensures path[m].row < |a| && path[m].column < |b| {
      assert Rows(path)[m] == path[m].row && Columns(path)[m] == path[m].column;
    }
  }

  /** The path crosses every row at or right of its largest best split. */
  lemma {:induction false} PathRightOfSplit<T>(a1: seq<T>, a2: seq<T>, b: seq<T>, k: nat)
    requires LargestBestSplit(a1, a2, b, k)
    ensures RightOf(RightmostPath(a1 + a2, b), |a1|, k)
    decreases |a2| + |b|
  {
    hide Len, RightmostPath, LargestBestSplit;
    var a := a1 + a2;
    PathBounds(a, b);
    if a2 != [] && b != [] {
      var a', x, b', y := a2[..|a2| - 1], a2[|a2| - 1], b[..|b| - 1], b[|b| - 1];
      assert a2 == a' + [x] && a == (a1 + a') + [x] && b == b' + [y];
      RightmostPathSnoc(a1 + a', x, b', y);
      if Len(a1 + a', b) == Len(a, b) {
        SplitIdleRow(a1, a', x, b, k);
        PathRightOfSplit(a1, a', b, k);
      } else {
        SplitBusyRowCut(a1, a', x, b, k);
        assert b[k..] == b'[k..] + [y];
        if x == y {
          SplitBusyMatch(a1, a', x, b', k);
          PathRightOfSplit(a1, a', b', k);
        } else {
          SplitBusyMiss(a1, a', x, b', y, k);
          PathRightOfSplit(a1, a2, b', k);
        }
      }
    } else if b != [] {
      assert a == a1;
    }
  }

  /** The first column a pair of embeddings uses from row i on, or end. */
  ghost function FirstColumn(rows: seq<int>, columns: seq<int>, i: int, end: int): int
    requires |rows| == |columns|
  {
    if rows == [] then end
    else if rows[0] >= i then columns[0]
    else FirstColumn(rows[1..], columns[1..], i, end)
  }

  lemma {:induction false} FirstColumnAt(rows: seq<int>, columns: seq<int>, i: int, end: int) returns (j: nat)
    requires |rows| == |columns| && forall p, q | 0 <= p < q < |rows| :: rows[p] < rows[q]
    ensures j <= |rows| && FirstColumn(rows, columns, i, end) == (if j < |rows| then columns[j] else end)
    ensures forall p | 0 <= p < |rows| :: rows[p] < i <==> p < j
  {
    if rows == [] || rows[0] >= i {
      j := 0;
    } else {
      var rest := FirstColumnAt(rows[1..], columns[1..], i, end);
      j := rest + 1;
      forall p | 0 <= p < |rows| ensures rows[p] < i <==> p < j {
        if p > 0 {
          assert rows[p] == rows[1..][p - 1];
        }
      }
    }
  }

  /** The positions from the j-th on, counted from i. */
  ghost function Shifted(f: seq<int>, j: nat, i: int): seq<int>
    requires j <= |f|
  {
    seq(|f| - j, p requires 0 <= p < |f| - j => f[j + p] - i)
  }

  /** An embedding into two sequences, cut where the second begins. */
  lemma EmbedsCut<T>(s: seq<T>, a1: seq<T>, a2: seq<T>, f: seq<int>, j: nat)
    requires Embeds(s, a1 + a2, f) && j <= |f|
    requires forall p | 0 <= p < |f| :: f[p] < |a1| <==> p < j
    ensures Embeds(s[..j], a1, f[..j]) && Embeds(s[j..], a2, Shifted(f, j, |a1|))
  {
  }

  /** A best split has a largest one at or right of it. */
  lemma {:induction false} LargestFrom<T>(a1: seq<T>, a2: seq<T>, b: seq<T>, c: nat) returns (k: nat)
    requires c <= |b| && SplitSum(a1, a2, b, c) == Len(a1 + a2, b)
    ensures c <= k && LargestBestSplit(a1, a2, b, k)
    decreases |b| - c
  {
    forall j | 0 <= j <= |b| ensures SplitSum(a1, a2, b, j) <= Len(a1 + a2, b) {
      SplitSumBound(a1, a2, b, j);
    }
    hide SplitSum, Len;
    if j: nat :| c < j <= |b| && SplitSum(a1, a2, b, j) == Len(a1 + a2, b) {
      k := LargestFrom(a1, a2, b, j);
    } else {
      k := c;
    }
  }

  /** The column at which an optimal pair of embeddings enters a row is a best split. */
  lemma EntryIsBestSplit<T>(s: seq<T>, a1: seq<T>, a2: seq<T>, f: seq<int>, b: seq<T>, g: seq<int>)
    requires Embeds(s, a1 + a2, f) && Embeds(s, b, g) && |s| == Len(a1 + a2, b)
    ensures |f| == |g|
    ensures var c := FirstColumn(f, g, |a1|, |b|);
            0 <= c <= |b| && SplitSum(a1, a2, b, c) == Len(a1 + a2, b)
  {
    hide *;
    var j := EntryCut(s, a1 + a2, f, b, g, |a1|);
    var c := FirstColumn(f, g, |a1|, |b|);
    CutIsBestSplit(s, a1, a2, f, b, g, j, c);
  }

  /** How many lines an embedding has matched when it enters a row. */
  lemma EntryCut<T>(s: seq<T>, a: seq<T>, f: seq<int>, b: seq<T>, g: seq<int>, i: nat) returns (j: nat)
    requires Embeds(s, a, f) && Embeds(s, b, g)
    ensures |f| == |g| && j <= |f|
    ensures var c := FirstColumn(f, g, i, |b|);
            && 0 <= c <= |b|
            && (forall p | 0 <= p < |f| :: f[p] < i <==> p < j)
            && (forall p | 0 <= p < |g| :: g[p] < c <==> p < j)
  {
    j := FirstColumnAt(f, g, i, |b|);
    hide FirstColumn;
  }

  lemma CutIsBestSplit<T>(s: seq<T>, a1: seq<T>, a2: seq<T>, f: seq<int>, b: seq<T>, g: seq<int>, j: nat, c: nat)
    requires Embeds(s, a1 + a2, f) && Embeds(s, b, g) && |s| == Len(a1 + a2, b) && c <= |b| && j <= |f| && j <= |g|
    requires forall p | 0 <= p < |f| :: f[p] < |a1| <==> p < j
    requires forall p | 0 <= p < |g| :: g[p] < c <==> p < j
    ensures SplitSum(a1, a2, b, c) == Len(a1 + a2, b)
  {
    hide Len, Embeds;
    var b1, b2 := b[..c], b[c..];
    assert b == b1 + b2 && |b1| == c;
    BothCut(s, a1, a2, f, b1, b2, g, j);
    SplitSumBound(a1, a2, b, c);
  }

  /** Two embeddings cut at one place bound a sequence by the lengths of both halves. */
  lemma BothCut<T>(s: seq<T>, a1: seq<T>, a2: seq<T>, f: seq<int>, b1: seq<T>, b2: seq<T>, g: seq<int>, j: nat)
    requires Embeds(s, a1 + a2, f) && Embeds(s, b1 + b2, g) && j <= |f| && j <= |g|
    requires forall p | 0 <= p < |f| :: f[p] < |a1| <==> p < j
    requires forall p | 0 <= p < |g| :: g[p] < |b1| <==> p < j
    ensures |s| <= Len(a1, b1) + Len(a2, b2)
  {
    hide Len;
    EmbedsCut(s, a1, a2, f, j);
    EmbedsCut(s, b1, b2, g, j);
    assert |s| == |f| == |g|;
    hide Embeds;
    LenIsUpperBound(s[..j], a1, f[..j], b1, g[..j]);
    LenIsUpperBound(s[j..], a2, Shifted(f, j, |a1|), b2, Shifted(g, j, |b1|));
  }

  /** Of all optimal paths the rightmost one enters every row last: from no row on does
      any longest common embedding first use a column further right. */
  lemma RightmostIsLast<T>(s: seq<T>, a: seq<T>, f: seq<int>, b: seq<T>, g: seq<int>, i: nat)
    requires Embeds(s, a, f) && Embeds(s, b, g) && |s| == Len(a, b) && i <= |a|
    ensures var path := RightmostPath(a, b);
            FirstColumn(f, g, i, |b|) <= FirstColumn(Rows(path), Columns(path), i, |b|)
  {
    var a1, a2 := a[..i], a[i..];
    assert a == a1 + a2 && |a1| == i;
    LastAtCut(s, a1, a2, f, b, g);
  }

  lemma LastAtCut<T>(s: seq<T>, a1: seq<T>, a2: seq<T>, f: seq<int>, b: seq<T>, g: seq<int>)
    requires Embeds(s, a1 + a2, f) && Embeds(s, b, g) && |s| == Len(a1 + a2, b)
    ensures var path := RightmostPath(a1 + a2, b);
            FirstColumn(f, g, |a1|, |b|) <= FirstColumn(Rows(path), Columns(path), |a1|, |b|)
  {
    EntryIsBestSplit(s, a1, a2, f, b, g);
    hide *;
    var k := LargestFrom(a1, a2, b, FirstColumn(f, g, |a1|, |b|));
    PathRightOfSplit(a1, a2, b, k);
    SplitInside(a1, a2, b, k);
    EntersAfter(a1 + a2, b, |a1|, k);
  }

  lemma SplitInside<T>(a1: seq<T>, a2: seq<T>, b: seq<T>, k: nat)
    requires LargestBestSplit(a1, a2, b, k)
    ensures k <= |b|
  {
  }

  /** A path right of a column from row i on enters row i no earlier. */
  lemma EntersAfter<T>(a: seq<T>, b: seq<T>, i: nat, k: nat)
    requires RightOf(RightmostPath(a, b), i, k) && k <= |b|
    ensures var path := RightmostPath(a, b);
            k <= FirstColumn(Rows(path), Columns(path), i, |b|)
  {
    RightmostPathEmbeds(a, b);
    hide RightmostPath, Rightmost;
    var path := RightmostPath(a, b);
    var j := FirstColumnAt(Rows(path), Columns(path), i, |b|);
    if j < |path| {
      assert Rows(path)[j] == path[j].row && Columns(path)[j] == path[j].column;
    }
  }
}
