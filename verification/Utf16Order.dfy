/** Comparing UTF-8 byte strings in JavaScript's string order, which is the order of
    their UTF-16 code units. */
module Utf16Order {

  type Byte = b: int | 0 <= b < 0x100

  type Unit = u: int | 0 <= u < 0x10000

  /** A Unicode scalar value: any code point but the surrogates. */
  type Scalar = c: int | (0 <= c < 0xD800) || (0xE000 <= c < 0x110000)

  // --- The two encodings -------------------------------------------------------

  /** UTF-8, section 3 of RFC 3629. */
  function Utf8(c: Scalar): seq<Byte> {
    if c < 0x80 then [c]
    else if c < 0x800 then [0xC0 + c / 0x40, 0x80 + c % 0x40]
    else if c < 0x10000 then [0xE0 + c / 0x1000, 0x80 + c / 0x40 % 0x40, 0x80 + c % 0x40]
    else [0xF0 + c / 0x40000, 0x80 + c / 0x1000 % 0x40, 0x80 + c / 0x40 % 0x40, 0x80 + c % 0x40]
  }

  /** UTF-16, section 2.1 of RFC 2781. */
  function Utf16(c: Scalar): seq<Unit> {
    if c < 0x10000 then [c]
    else [0xD800 + (c - 0x10000) / 0x400, 0xDC00 + (c - 0x10000) % 0x400]
  }

  function Encode8(s: seq<Scalar>): seq<Byte> {
    if s == [] then [] else Utf8(s[0]) + Encode8(s[1..])
  }

  function Encode16(s: seq<Scalar>): seq<Unit> {
    if s == [] then [] else Utf16(s[0]) + Encode16(s[1..])
  }

  /** What the units of one character stand for, by section 2.2 of RFC 2781. */
  function FromUnits(u: seq<int>): int {
    if |u| == 2 && 0xD800 <= u[0] < 0xDC00 <= u[1] < 0xE000 then 0x10000 + (u[0] - 0xD800) * 0x400 + (u[1] - 0xDC00)
    else if |u| == 1 then u[0]
    else -1
  }

  /** What bytes of one character stand for, by section 3 of RFC 3629. */
  function FromBytes(p: seq<int>): int {
    if |p| == 1 && p[0] < 0x80 then p[0]
    else if |p| == 2 && 0xC0 <= p[0] < 0xE0 then (p[0] - 0xC0) * 0x40 + (p[1] - 0x80)
    else if |p| == 3 && 0xE0 <= p[0] < 0xF0 then (p[0] - 0xE0) * 0x1000 + (p[1] - 0x80) * 0x40 + (p[2] - 0x80)
    else if |p| == 4 && 0xF0 <= p[0] < 0xF8 then
      (p[0] - 0xF0) * 0x40000 + (p[1] - 0x80) * 0x1000 + (p[2] - 0x80) * 0x40 + (p[3] - 0x80)
    else -1
  }

  /** Both encodings stand for the character they were made from. */
  lemma EncodingsDecode(c: Scalar)
    ensures FromUnits(Utf16(c)) == c
    ensures FromBytes(Utf8(c)) == c
  {
    BytesDecode(c);
    hide FromBytes, Utf8;
  }

  lemma BytesDecode(c: Scalar)
    ensures FromBytes(Utf8(c)) == c
  {
    Shares(c);
    if c < 0x80 {
    } else if c < 0x800 {
      assert 0xC0 <= 0xC0 + c / 0x40 < 0xE0;
    } else if c < 0x10000 {
      assert 0xE0 <= 0xE0 + c / 0x1000 < 0xF0;
    } else {
      assert 0xF0 <= 0xF0 + c / 0x40000 < 0xF8;
    }
  }

  /** A number by the shares of its bits. */
  lemma Shares(c: nat)
    ensures c == c / 0x40 * 0x40 + c % 0x40
    ensures c == c / 0x1000 * 0x1000 + c / 0x40 % 0x40 * 0x40 + c % 0x40
    ensures c == c / 0x40000 * 0x40000 + c / 0x1000 % 0x40 * 0x1000 + c / 0x40 % 0x40 * 0x40 + c % 0x40
  {
    assert c / 0x1000 == c / 0x40 / 0x40;
    assert c / 0x40000 == c / 0x1000 / 0x40;
  }

  /** Lexicographic order by code units: JavaScript's `<` on strings. */
  predicate LexLess(a: seq<Unit>, b: seq<Unit>) {
    b != [] && (a == [] || a[0] < b[0] || (a[0] == b[0] && LexLess(a[1..], b[1..])))
  }

  // --- The comparison -------------------------------------------------------------

  /** The two top bits mark a byte that continues a character. */
  predicate Continues(b: Byte) {
    b / 0x40 == 2
  }

  /** Whether the first differing bytes put the first string first. */
  predicate ByteDecides(ca: Byte, cb: Byte) {
    if !Continues(ca) && ca >= 0xF0 && (cb == 0xEE || cb == 0xEF) then true
    else if !Continues(ca) && cb >= 0xF0 && (ca == 0xEE || ca == 0xEF) then false
    else ca < cb
  }

  predicate JsLessOf(a: seq<Byte>, b: seq<Byte>) {
    if a == [] || b == [] then |a| < |b|
    else if a[0] == b[0] then JsLessOf(a[1..], b[1..])
    else ByteDecides(a[0], b[0])
  }

  method JsLess(a: seq<Byte>, b: seq<Byte>) returns (less: bool)
    ensures less == JsLessOf(a, b)
    ensures forall s, t :: a == Encode8(s) && b == Encode8(t) ==> less == LexLess(Encode16(s), Encode16(t))
  {
    forall s, t | a == Encode8(s) && b == Encode8(t)
      ensures JsLessOf(a, b) == LexLess(Encode16(s), Encode16(t))
    {
      JsLessIsUtf16Order(s, t);
    }
    hide Encode8, Encode16, LexLess;
    var n := |a|;
    if |b| < n {
      n := |b|;
    }
    var i := 0;
    while i < n && a[i] == b[i]
      invariant 0 <= i <= n
      invariant JsLessOf(a, b) == JsLessOf(a[i..], b[i..])
    {
      assert a[i..] == [a[i]] + a[i + 1..] && b[i..] == [b[i]] + b[i + 1..];
      JsLessSame(a[i], a[i + 1..], b[i + 1..]);
      i := i + 1;
    }
    if i == n {
      assert a[i..] == [] || b[i..] == [];
      return |a| < |b|;
    }
    if !Continues(a[i]) {
      var ca, cb := a[i], b[i];
      if ca >= 0xF0 && (cb == 0xEE || cb == 0xEF) {
        return true;
      }
      if cb >= 0xF0 && (ca == 0xEE || ca == 0xEF) {
        return false;
      }
    }
    return a[i] < b[i];
  }

  lemma JsLessSame(x: Byte, a: seq<Byte>, b: seq<Byte>)
    ensures JsLessOf([x] + a, [x] + b) == JsLessOf(a, b)
  {
    assert ([x] + a)[1..] == a && ([x] + b)[1..] == b;
  }

  lemma JsLessDiffers(x: Byte, a: seq<Byte>, y: Byte, b: seq<Byte>)
    requires x != y
    ensures JsLessOf([x] + a, [y] + b) == ByteDecides(x, y)
  {
  }

  lemma {:induction false} JsLessPrefix(p: seq<Byte>, a: seq<Byte>, b: seq<Byte>)
    ensures JsLessOf(p + a, p + b) == JsLessOf(a, b)
  {
    if p == [] {
      assert p + a == a && p + b == b;
    } else {
      assert p + a == [p[0]] + (p[1..] + a) && p + b == [p[0]] + (p[1..] + b);
      JsLessSame(p[0], p[1..] + a, p[1..] + b);
      JsLessPrefix(p[1..], a, b);
    }
  }

  lemma LexLessSame(x: Unit, a: seq<Unit>, b: seq<Unit>)
    ensures LexLess([x] + a, [x] + b) == LexLess(a, b)
  {
    assert ([x] + a)[1..] == a && ([x] + b)[1..] == b;
  }

  lemma LexLessDiffers(x: Unit, a: seq<Unit>, y: Unit, b: seq<Unit>)
    requires x != y
    ensures LexLess([x] + a, [y] + b) == (x < y)
  {
  }

  lemma {:induction false} LexLessPrefix(p: seq<Unit>, a: seq<Unit>, b: seq<Unit>)
    ensures LexLess(p + a, p + b) == LexLess(a, b)
  {
    if p == [] {
      assert p + a == a && p + b == b;
    } else {
      assert p + a == [p[0]] + (p[1..] + a) && p + b == [p[0]] + (p[1..] + b);
      LexLessSame(p[0], p[1..] + a, p[1..] + b);
      LexLessPrefix(p[1..], a, b);
    }
  }

  // --- One differing character --------------------------------------------------------

  /** Code-unit order of two characters: surrogate pairs sit between U+D7FF and U+E000. */
  predicate CharLess(x: Scalar, y: Scalar) {
    if (x >= 0x10000) == (y >= 0x10000) then x < y
    else if x >= 0x10000 then y >= 0xE000
    else x < 0xD800
  }

  lemma Utf16Decides(x: Scalar, u: seq<Unit>, y: Scalar, v: seq<Unit>)
    requires x != y
    ensures LexLess(Utf16(x) + u, Utf16(y) + v) == CharLess(x, y)
  {
    hide LexLess;
    var p, q := Utf16(x), Utf16(y);
    assert p + u == [p[0]] + (p[1..] + u) && q + v == [q[0]] + (q[1..] + v);
    if p[0] != q[0] {
      LexLessDiffers(p[0], p[1..] + u, q[0], q[1..] + v);
    } else {
      LexLessSame(p[0], p[1..] + u, q[1..] + v);
      assert p[1..] + u == [p[1]] + u && q[1..] + v == [q[1]] + v;
      LexLessDiffers(p[1], u, q[1], v);
    }
  }

  lemma Utf8Decides(x: Scalar, u: seq<Byte>, y: Scalar, v: seq<Byte>)
    requires x != y
    ensures JsLessOf(Utf8(x) + u, Utf8(y) + v) == CharLess(x, y)
  {
    if |Utf8(x)| != |Utf8(y)| {
      LeadDecides(x, u, y, v);
    } else if |Utf8(x)| == 1 {
      JsLessDiffers(x, u, y, v);
    } else if |Utf8(x)| == 2 {
      TwoBytesDecide(x, u, y, v);
    } else if |Utf8(x)| == 3 {
      ThreeBytesDecide(x, u, y, v);
    } else {
      FourBytesDecide(x, u, y, v);
    }
  }

  lemma LeadDecides(x: Scalar, u: seq<Byte>, y: Scalar, v: seq<Byte>)
    requires |Utf8(x)| != |Utf8(y)|
    ensures JsLessOf(Utf8(x) + u, Utf8(y) + v) == CharLess(x, y)
  {
    var p, q := Utf8(x), Utf8(y);
    assert p + u == [p[0]] + (p[1..] + u) && q + v == [q[0]] + (q[1..] + v);
    JsLessDiffers(p[0], p[1..] + u, q[0], q[1..] + v);
    hide JsLessOf;
  }

  /** Bytes of one length decide as the digits of the two code points. */
  lemma TwoBytesDecide(x: Scalar, u: seq<Byte>, y: Scalar, v: seq<Byte>)
    requires x != y && |Utf8(x)| == |Utf8(y)| == 2
    ensures JsLessOf(Utf8(x) + u, Utf8(y) + v) == CharLess(x, y)
  {
    DigitsDecide(Utf8(x), u, Utf8(y), v);
    hide JsLessOf;
  }

  lemma ThreeBytesDecide(x: Scalar, u: seq<Byte>, y: Scalar, v: seq<Byte>)
    requires x != y && |Utf8(x)| == |Utf8(y)| == 3
    ensures JsLessOf(Utf8(x) + u, Utf8(y) + v) == CharLess(x, y)
  {
    var p, q := Utf8(x), Utf8(y);
    ThreeDigits(x);
    ThreeDigits(y);
    SameLeadBytes(p, q);
    hide JsLessOf, DigitsLess, SameLeads, Utf8;
    DigitsOfThree(p, q);
    DigitsDecide(p, u, q, v);
  }

  lemma FourBytesDecide(x: Scalar, u: seq<Byte>, y: Scalar, v: seq<Byte>)
    requires x != y && |Utf8(x)| == |Utf8(y)| == 4
    ensures JsLessOf(Utf8(x) + u, Utf8(y) + v) == CharLess(x, y)
  {
    var p, q := Utf8(x), Utf8(y);
    FourDigits(x);
    FourDigits(y);
    SameLeadBytes(p, q);
    hide JsLessOf, DigitsLess, SameLeads, Utf8;
    DigitsOfFour(p, q);
    DigitsDecide(p, u, q, v);
  }

  lemma ThreeDigits(x: Scalar)
    requires |Utf8(x)| == 3
    ensures var p := Utf8(x);
            && 0xE0 <= p[0] < 0xF0 && Trail(p[1]) && Trail(p[2]) && x < 0x10000
            && x == 0x1000 * (p[0] as int - 0xE0) + 0x40 * (p[1] as int - 0x80) + (p[2] as int - 0x80)
  {
    assert x / 0x40 / 0x40 == x / 0x1000;
  }

  lemma FourDigits(x: Scalar)
    requires |Utf8(x)| == 4
    ensures var p := Utf8(x);
            && 0xF0 <= p[0] && Trail(p[1]) && Trail(p[2]) && Trail(p[3]) && x >= 0x10000
            && x == 0x40000 * (p[0] as int - 0xF0) + 0x1000 * (p[1] as int - 0x80) + 0x40 * (p[2] as int - 0x80) + (p[3] as int - 0x80)
  {
    assert x / 0x40 / 0x40 == x / 0x1000 && x / 0x1000 / 0x40 == x / 0x40000;
  }

  predicate Trail(b: Byte) { 0x80 <= b < 0xC0 }

  /** Lead bytes of one length, then trailing bytes. */
  lemma SameLeadBytes(p: seq<Byte>, q: seq<Byte>)
    requires |p| == |q| > 0
    requires (0xE0 <= p[0] < 0xF0 && 0xE0 <= q[0] < 0xF0) || (0xF0 <= p[0] && 0xF0 <= q[0])
    requires forall i | 0 < i < |p| :: Trail(p[i]) && Trail(q[i])
    ensures SameLeads(p, q)
  {
  }

  lemma DigitsOfThree(p: seq<Byte>, q: seq<Byte>)
    requires |p| == |q| == 3
    ensures DigitsLess(p, q) == (p[0] < q[0] || (p[0] == q[0] && (p[1] < q[1] || (p[1] == q[1] && p[2] < q[2]))))
  {
    DigitsOfTwo(p[1..], q[1..]);
  }

  lemma DigitsOfTwo(p: seq<Byte>, q: seq<Byte>)
    requires |p| == |q| == 2
    ensures DigitsLess(p, q) == (p[0] < q[0] || (p[0] == q[0] && p[1] < q[1]))
  {
    assert DigitsLess(p[1..], q[1..]) == (p[1] < q[1]);
  }

  lemma DigitsOfFour(p: seq<Byte>, q: seq<Byte>)
    requires |p| == |q| == 4
    ensures DigitsLess(p, q)
         == (p[0] < q[0] || (p[0] == q[0] && (p[1] < q[1] || (p[1] == q[1] && (p[2] < q[2] || (p[2] == q[2] && p[3] < q[3]))))))
  {
    DigitsOfThree(p[1..], q[1..]);
  }

  /** First difference of two encodings of one length. */
  predicate DigitsLess(p: seq<Byte>, q: seq<Byte>)
    requires |p| == |q|
  {
    p != [] && (if p[0] == q[0] then DigitsLess(p[1..], q[1..]) else p[0] < q[0])
  }

  /** No lead byte of one length meets one of another. */
  predicate SameLeads(p: seq<Byte>, q: seq<Byte>)
    requires |p| == |q|
  {
    forall i | 0 <= i < |p| :: ByteDecides(p[i], q[i]) == (p[i] < q[i])
  }

  lemma {:induction false} DigitsDecide(p: seq<Byte>, u: seq<Byte>, q: seq<Byte>, v: seq<Byte>)
    requires |p| == |q| && p != q && SameLeads(p, q)
    ensures JsLessOf(p + u, q + v) == DigitsLess(p, q)
  {
    assert p + u == [p[0]] + (p[1..] + u) && q + v == [q[0]] + (q[1..] + v);
    if p[0] == q[0] {
      JsLessSame(p[0], p[1..] + u, q[1..] + v);
      assert forall i | 0 <= i < |p[1..]| :: p[1..][i] == p[i + 1] && q[1..][i] == q[i + 1];
      assert p == [p[0]] + p[1..] && q == [q[0]] + q[1..];
      DigitsDecide(p[1..], u, q[1..], v);
    } else {
      JsLessDiffers(p[0], p[1..] + u, q[0], q[1..] + v);
    }
  }

  // --- The order -------------------------------------------------------------------------

  lemma EncodeSomething(s: seq<Scalar>)
    requires s != []
    ensures |Encode8(s)| > 0 && |Encode16(s)| > 0
  {
  }

  /** On valid UTF-8 the byte comparison is code-unit order. */
  lemma {:induction false} JsLessIsUtf16Order(s: seq<Scalar>, t: seq<Scalar>)
    ensures JsLessOf(Encode8(s), Encode8(t)) == LexLess(Encode16(s), Encode16(t))
    decreases |s|
  {
    if s != [] && t != [] {
      hide JsLessOf, LexLess, Utf8, Utf16, CharLess;
      if s[0] == t[0] {
        JsLessIsUtf16Order(s[1..], t[1..]);
        JsLessPrefix(Utf8(s[0]), Encode8(s[1..]), Encode8(t[1..]));
        LexLessPrefix(Utf16(s[0]), Encode16(s[1..]), Encode16(t[1..]));
      } else {
        Utf8Decides(s[0], Encode8(s[1..]), t[0], Encode8(t[1..]));
        Utf16Decides(s[0], Encode16(s[1..]), t[0], Encode16(t[1..]));
      }
    }
  }

  // --- A strict total order, and sorting by it ---------------------------------------------

  lemma {:induction false} LexLessTotal(a: seq<Unit>, b: seq<Unit>)
    ensures LexLess(a, b) || a == b || LexLess(b, a)
    ensures !(LexLess(a, b) && LexLess(b, a)) && !LexLess(a, a)
  {
    if a != [] && b != [] {
      LexLessTotal(a[1..], b[1..]);
      assert a == [a[0]] + a[1..] && b == [b[0]] + b[1..];
    }
    LexLessIrreflexive(a);
  }

  lemma {:induction false} LexLessIrreflexive(a: seq<Unit>)
    ensures !LexLess(a, a)
  {
    if a != [] {
      LexLessIrreflexive(a[1..]);
    }
  }

  lemma {:induction false} LexLessTransitive(a: seq<Unit>, b: seq<Unit>, c: seq<Unit>)
    requires LexLess(a, b) && LexLess(b, c)
    ensures LexLess(a, c)
  {
    if a != [] && a[0] == b[0] && b[0] == c[0] {
      LexLessTransitive(a[1..], b[1..], c[1..]);
    }
  }

  lemma CharLessTotal(x: Scalar, y: Scalar)
    requires x != y
    ensures CharLess(x, y) || CharLess(y, x)
  {
  }

  /** Different strings have different code units. */
  lemma {:induction false} Encode16Injective(s: seq<Scalar>, t: seq<Scalar>)
    requires Encode16(s) == Encode16(t)
    ensures s == t
    decreases |s|
  {
    hide Utf16, LexLess;
    if s == [] || t == [] {
      if s != [] { EncodeSomething(s); }
      if t != [] { EncodeSomething(t); }
    } else if s[0] != t[0] {
      hide CharLess;
      CharLessTotal(s[0], t[0]);
      LexLessIrreflexive(Encode16(s));
      Utf16Decides(s[0], Encode16(s[1..]), t[0], Encode16(t[1..]));
      Utf16Decides(t[0], Encode16(t[1..]), s[0], Encode16(s[1..]));
    } else {
      var p := Utf16(s[0]);
      assert (p + Encode16(s[1..]))[|p|..] == Encode16(s[1..]);
      assert (p + Encode16(t[1..]))[|p|..] == Encode16(t[1..]);
      Encode16Injective(s[1..], t[1..]);
      assert s == [s[0]] + s[1..] && t == [t[0]] + t[1..];
    }
  }

  /** The comparison of two strings given by their characters. */
  predicate Before(s: seq<Scalar>, t: seq<Scalar>) {
    JsLessOf(Encode8(s), Encode8(t))
  }

  /** On valid strings the comparison is a strict total order. */
  lemma BeforeIsStrictTotalOrder(s: seq<Scalar>, t: seq<Scalar>, r: seq<Scalar>)
    ensures !Before(s, s)
    ensures Before(s, t) || s == t || Before(t, s)
    ensures Before(s, t) ==> !Before(t, s)
    ensures Before(s, t) && Before(t, r) ==> Before(s, r)
  {
    hide JsLessOf, LexLess, Encode8, Encode16;
    JsLessIsUtf16Order(s, s);
    JsLessIsUtf16Order(s, t);
    JsLessIsUtf16Order(t, s);
    JsLessIsUtf16Order(t, r);
    JsLessIsUtf16Order(s, r);
    LexLessTotal(Encode16(s), Encode16(t));
    LexLessTotal(Encode16(s), Encode16(s));
    if Encode16(s) == Encode16(t) {
      Encode16Injective(s, t);
    }
    if Before(s, t) && Before(t, r) {
      LexLessTransitive(Encode16(s), Encode16(t), Encode16(r));
    }
  }

  /** Sorted by the comparison: nothing stands in front of something it follows. */
  ghost predicate Sorted(ss: seq<seq<Scalar>>) {
    forall i, j | 0 <= i < j < |ss| :: !Before(ss[j], ss[i])
  }

  lemma FirstIsLeast(ss: seq<seq<Scalar>>, s: seq<Scalar>)
    requires Sorted(ss) && s in ss
    ensures !Before(s, ss[0])
  {
    var i :| 0 <= i < |ss| && ss[i] == s;
    hide Before;
    if i == 0 {
      BeforeIsStrictTotalOrder(s, s, s);
    }
  }

  lemma SameHead(a: seq<seq<Scalar>>, b: seq<seq<Scalar>>)
    requires Sorted(a) && Sorted(b) && multiset(a) == multiset(b) && a != []
    ensures b != [] && a[0] == b[0]
  {
    assert a[0] in multiset(a);
    assert a[0] in b && b[0] in multiset(b);
    assert b[0] in a;
    hide Before, Sorted;
    FirstIsLeast(a, b[0]);
    FirstIsLeast(b, a[0]);
    BeforeIsStrictTotalOrder(a[0], b[0], a[0]);
  }

  lemma TailSorted(a: seq<seq<Scalar>>)
    requires Sorted(a) && a != []
    ensures Sorted(a[1..]) && multiset(a[1..]) == multiset(a) - multiset{a[0]}
  {
    hide Before;
    assert a == [a[0]] + a[1..];
  }

  /** Whatever sort is used, stable or not, the sorted arrangement is one and the same. */
  lemma {:induction false} SortedIsUnique(a: seq<seq<Scalar>>, b: seq<seq<Scalar>>)
    requires Sorted(a) && Sorted(b) && multiset(a) == multiset(b)
    ensures a == b
    decreases |a|
  {
    hide Before, Sorted;
    if a == [] {
      assert |multiset(b)| == |b|;
    } else {
      SameHead(a, b);
      TailSorted(a);
      TailSorted(b);
      SortedIsUnique(a[1..], b[1..]);
      assert a == [a[0]] + a[1..] && b == [b[0]] + b[1..];
    }
  }

  // --- Length -------------------------------------------------------------------------------

  /** JavaScript's length counts code units. */
  method Utf16Len(s: seq<Scalar>) returns (n: nat)
    ensures n == |Encode16(s)|
  {
    n := 0;
    for i := 0 to |s|
      invariant n + |Encode16(s[i..])| == |Encode16(s)|
    {
      assert s[i..][1..] == s[i + 1..];
      if s[i] >= 0x10000 {
        n := n + 2;
      } else {
        n := n + 1;
      }
    }
  }
}
