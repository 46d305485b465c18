/**
 * The order in which `TreeMap<String, _>` and `TreeSet<Integer>` keep their
 * keys: `String.compareTo`, which compares the UTF-16 code units of the two
 * strings one by one (a proper prefix first), and the natural order of
 * integers, plus `compareToIgnoreCase`. Sets are turned into the ascending
 * sequences their tree iterators produce.
 */
module StringOrder {
  import opened Text

  /** The UTF-16 code units of one character: itself below U+10000, a surrogate pair above. */
  function CodeUnits(c: char): (r: seq<int>)
    ensures 1 <= |r| <= 2
    ensures forall i :: 0 <= i < |r| ==> 0 <= r[i] < 0x10000
    ensures |r| == 2 <==> c as int >= 0x10000
    ensures |r| == 2 ==> 0xD800 <= r[0] < 0xDC00 <= r[1] < 0xE000
  {
    var v := c as int;
    if v < 0x10000 then [v]
    else [0xD800 + (v - 0x10000) / 0x400, 0xDC00 + (v - 0x10000) % 0x400]
  }

  /** The UTF-16 encoding of a string, as a Java `String` holds it. */
  function Utf16(s: string): seq<int>
    decreases |s|
  {
    if |s| == 0 then [] else CodeUnits(s[0]) + Utf16(s[1..])
  }

  /** Lexicographic order of code-unit sequences, a proper prefix first. */
  predicate UnitsLess(a: seq<int>, b: seq<int>)
    decreases |a|
  {
    if |a| == 0 then |b| > 0
    else if |b| == 0 then false
    else if a[0] != b[0] then a[0] < b[0]
    else UnitsLess(a[1..], b[1..])
  }

  /**
   * A key whose integer order is the order of the characters' first code
   * units: the characters below the surrogate range, then the supplementary
   * characters (whose first unit is a high surrogate), then U+E000 to U+FFFF.
   */
  function UnitKey(c: char): int {
    var v := c as int;
    if v < 0xD800 then v else if v < 0x10000 then v + 0x100000 else v - 0x2800
  }

  /** `c` comes before `d` at the first index where two strings differ. */
  predicate CharLess(c: char, d: char) {
    UnitKey(c) < UnitKey(d)
  }

  /** `a.compareTo(b) < 0`, character by character. */
  predicate Less(a: string, b: string)
    decreases |a|
  {
    if |a| == 0 then |b| > 0
    else if |b| == 0 then false
    else if a[0] != b[0] then CharLess(a[0], b[0])
    else Less(a[1..], b[1..])
  }

  /** Distinct characters have distinct keys. */
  lemma UnitKeyInjective(c: char, d: char)
    ensures UnitKey(c) == UnitKey(d) <==> c == d
  {
    if UnitKey(c) == UnitKey(d) {
      assert c as int == d as int;
    }
  }

  /**
   * Comparing two distinct characters decides the comparison of any code-unit
   * sequences that start with their encodings.
   */
  lemma CharLessUnits(c: char, d: char, x: seq<int>, y: seq<int>)
    requires c != d
    ensures CharLess(c, d) <==> UnitsLess(CodeUnits(c) + x, CodeUnits(d) + y)
  {
    var u, w := CodeUnits(c) + x, CodeUnits(d) + y;
    var v, z := c as int, d as int;
    assert u[0] == CodeUnits(c)[0] && w[0] == CodeUnits(d)[0];
    if v >= 0x10000 && z >= 0x10000 && u[0] == w[0] {
      assert (v - 0x10000) / 0x400 == (z - 0x10000) / 0x400;
      assert u[1..][0] == CodeUnits(c)[1] && w[1..][0] == CodeUnits(d)[1];
      assert (v - 0x10000) % 0x400 != (z - 0x10000) % 0x400;
      assert v < z <==> (v - 0x10000) % 0x400 < (z - 0x10000) % 0x400;
    } else if v >= 0x10000 && z >= 0x10000 {
      assert v < z <==> (v - 0x10000) / 0x400 < (z - 0x10000) / 0x400;
    } else if v < 0x10000 && z < 0x10000 {
      assert v != z;
    }
  }

  /** The character order above is `String.compareTo`: the order of the UTF-16 encodings. */
  lemma {:induction false} LessIsUtf16Order(a: string, b: string)
    ensures Less(a, b) <==> UnitsLess(Utf16(a), Utf16(b))
    decreases |a|
  {
    if |a| > 0 && |b| > 0 {
      if a[0] != b[0] {
        CharLessUnits(a[0], b[0], Utf16(a[1..]), Utf16(b[1..]));
      } else {
        LessIsUtf16Order(a[1..], b[1..]);
        UnitsLessCommonPrefix(CodeUnits(a[0]), Utf16(a[1..]), Utf16(b[1..]));
      }
    } else if |a| > 0 {
      assert |CodeUnits(a[0])| > 0;
    } else if |b| > 0 {
      assert |CodeUnits(b[0])| > 0;
    }
  }

  /**
   * A supplementary character sorts after the characters below U+D800 and
   * before those from U+E000 to U+FFFF, unlike the order of code points.
   */
  lemma SupplementaryOrder()
    ensures Less("z", "\U{1F600}") && Less("\U{1F600}", "\U{FF01}")
    ensures Less("\U{1F600}", "\U{1F601}")
  {
  }

  /** A common prefix does not change the order. */
  lemma {:induction false} UnitsLessCommonPrefix(p: seq<int>, x: seq<int>, y: seq<int>)
    ensures UnitsLess(p + x, p + y) <==> UnitsLess(x, y)
    decreases |p|
  {
    if |p| > 0 {
      assert (p + x)[1..] == p[1..] + x;
      assert (p + y)[1..] == p[1..] + y;
      UnitsLessCommonPrefix(p[1..], x, y);
    } else {
      assert p + x == x && p + y == y;
    }
  }

  /** `a.compareTo(b) <= 0`. */
  predicate LessOrEqual(a: string, b: string) {
    a == b || Less(a, b)
  }

  lemma {:induction false} LessIrreflexive(a: string)
    ensures !Less(a, a)
    decreases |a|
  {
    if |a| > 0 {
      LessIrreflexive(a[1..]);
    }
  }

  lemma {:induction false} LessAsymmetric(a: string, b: string)
    requires Less(a, b)
    ensures !Less(b, a)
    decreases |a|
  {
    if |a| > 0 && a[0] == b[0] {
      LessAsymmetric(a[1..], b[1..]);
    }
  }

  lemma {:induction false} LessTransitive(a: string, b: string, c: string)
    requires Less(a, b) && Less(b, c)
    ensures Less(a, c)
    decreases |a|
  {
    if |a| > 0 && a[0] == b[0] && b[0] == c[0] {
      LessTransitive(a[1..], b[1..], c[1..]);
    }
  }

  /** Any two distinct strings are ordered one way or the other. */
  lemma {:induction false} LessTotal(a: string, b: string)
    ensures a == b || Less(a, b) || Less(b, a)
    decreases |a|
  {
    if |a| > 0 && |b| > 0 && a[0] == b[0] {
      LessTotal(a[1..], b[1..]);
      if a[1..] == b[1..] {
        assert a == [a[0]] + a[1..] && b == [b[0]] + b[1..];
      }
    }
  }

  /** `compareTo` is a strict total order on strings. */
  lemma LessIsStrictTotalOrder()
    ensures forall a :: !Less(a, a)
    ensures forall a, b :: Less(a, b) ==> !Less(b, a)
    ensures forall a, b, c :: Less(a, b) && Less(b, c) ==> Less(a, c)
    ensures forall a, b :: a == b || Less(a, b) || Less(b, a)
  {
    forall a { LessIrreflexive(a); }
    forall a, b | Less(a, b) { LessAsymmetric(a, b); }
    forall a, b, c | Less(a, b) && Less(b, c) { LessTransitive(a, b, c); }
    forall a, b { LessTotal(a, b); }
  }

  /** A string that starts with `q` comes no earlier than `q`. */
  lemma {:induction false} PrefixNotLess(w: string, q: string)
    ensures StartsWith(w, q) ==> LessOrEqual(q, w)
    decreases |q|
  {
    if StartsWith(w, q) {
      if |q| > 0 {
        assert StartsWith(w[1..], q[1..]);
        PrefixNotLess(w[1..], q[1..]);
        if w[1..] == q[1..] {
          assert w == [w[0]] + w[1..] && q == [q[0]] + q[1..];
        }
      } else if |w| > 0 {
        assert Less(q, w);
      }
    }
  }

  /**
   * The strings with prefix `q` are contiguous in key order: anything between
   * `q` and a string that starts with `q` also starts with `q`.
   */
  lemma {:induction false} PrefixBlock(q: string, a: string, b: string)
    requires LessOrEqual(q, a) && LessOrEqual(a, b)
    ensures StartsWith(b, q) ==> StartsWith(a, q)
    decreases |q|
  {
    if StartsWith(b, q) && |q| > 0 && a != q {
      assert |a| > 0;
      assert a[0] == q[0] by {
        if a != b {
          assert !CharLess(a[0], q[0]) && !CharLess(b[0], a[0]);
          UnitKeyInjective(q[0], a[0]);
          UnitKeyInjective(a[0], b[0]);
        }
      }
      assert StartsWith(b[1..], q[1..]);
      PrefixBlock(q[1..], a[1..], b[1..]);
      assert a[..|q|] == [a[0]] + a[1..][..|q| - 1];
      assert q == [q[0]] + q[1..];
    }
  }

  /** Strictly ascending in `compareTo` order, as a `TreeMap`'s keys are iterated. */
  predicate StrictlySorted(s: seq<string>) {
    forall i, j :: 0 <= i < j < |s| ==> Less(s[i], s[j])
  }

  lemma {:induction false} MinimumExists(s: set<string>)
    requires s != {}
    ensures exists m :: m in s && forall x :: x in s ==> LessOrEqual(m, x)
    decreases |s|
  {
    var y :| y in s;
    if s != {y} {
      MinimumExists(s - {y});
      var m :| m in s - {y} && forall x :: x in s - {y} ==> LessOrEqual(m, x);
      LessIsStrictTotalOrder();
      var least := if Less(m, y) then m else y;
      forall x | x in s
        ensures LessOrEqual(least, x)
      {
        if x != y { assert x in s - {y}; }
      }
    } else {
      assert y in s && forall x :: x in s ==> LessOrEqual(y, x);
    }
  }

  /** The first key of a non-empty `TreeSet<String>`. */
  function Minimum(s: set<string>): (m: string)
    requires s != {}
    ensures m in s && forall x :: x in s ==> LessOrEqual(m, x)
  {
    MinimumExists(s);
    LessIsStrictTotalOrder();
    var m :| m in s && forall x :: x in s ==> LessOrEqual(m, x);
    m
  }

  /** The keys of a string set in iteration order of a `TreeSet`. */
  function SortedStrings(s: set<string>): (r: seq<string>)
    ensures StrictlySorted(r)
    ensures forall x :: x in r <==> x in s
    ensures |r| == |s|
    decreases |s|
  {
    if s == {} then []
    else
      var m := Minimum(s);
      var rest := SortedStrings(s - {m});
      assert forall x :: x in rest ==> Less(m, x);
      [m] + rest
  }

  /** Ascending without repetition, as a `TreeSet<Integer>` is iterated. */
  predicate Ascending(s: seq<int>) {
    forall i, j :: 0 <= i < j < |s| ==> s[i] < s[j]
  }

  /** Some element of a non-empty integer set. */
  lemma IntElement(s: set<int>) returns (y: int)
    requires s != {}
    ensures y in s
  {
    if forall x :: x !in s { assert false; }
    y :| y in s;
  }

  lemma {:induction false} IntMinimumExists(s: set<int>)
    requires s != {}
    ensures exists m :: m in s && forall x :: x in s ==> m <= x
    decreases |s|
  {
    var y := IntElement(s);
    if s != {y} {
      IntMinimumExists(s - {y});
      var m :| m in s - {y} && forall x :: x in s - {y} ==> m <= x;
      var least := if m < y then m else y;
      forall x | x in s
        ensures least <= x
      {
        if x != y { assert x in s - {y}; }
      }
    } else {
      assert forall x :: x in s ==> y <= x;
    }
  }

  /** The first element of a non-empty `TreeSet<Integer>`. */
  function IntMinimum(s: set<int>): (m: int)
    requires s != {}
    ensures m in s && forall x :: x in s ==> m <= x
  {
    IntMinimumExists(s);
    var m :| m in s && forall x :: x in s ==> m <= x;
    m
  }

  /** The elements of an integer set in iteration order of a `TreeSet`. */
  function SortedInts(s: set<int>): (r: seq<int>)
    ensures Ascending(r)
    ensures forall x :: x in r <==> x in s
    ensures |r| == |s|
    decreases |s|
  {
    if s == {} then []
    else
      var m := IntMinimum(s);
      [m] + SortedInts(s - {m})
  }

  /** Sign of `a.compareToIgnoreCase(b)`: `compareTo` on the case-folded strings. */
  function CompareIgnoreCase(a: string, b: string): (r: int)
    ensures r == 0 <==> Lower(a) == Lower(b)
    ensures r < 0 <==> Less(Lower(a), Lower(b))
    ensures r > 0 <==> Less(Lower(b), Lower(a))
  {
    LessIsStrictTotalOrder();
    if Lower(a) == Lower(b) then 0 else if Less(Lower(a), Lower(b)) then -1 else 1
  }
}
