/**
 * One search result (`InvertedIndex.Result`) and its `compareTo`: score
 * descending, then match count descending, then location ascending ignoring
 * case. The score `count / wordCount` is kept as the pair and compared by
 * cross-multiplication, so the order is exact rational order.
 */
module ResultOrder {
  import opened Text
  import opened StringOrder

  /** `where`, `count` and the word count of `where` that the score divides by. */
  datatype Result = Result(where: string, count: int, wordCount: int)

  /** The score as a rational number (defined for a positive word count). */
  function Score(x: Result): real
    requires x.wordCount > 0
  {
    x.count as real / x.wordCount as real
  }

  /** `x.compareTo(y)`, reduced to its sign: negative when `x` comes first. */
  function CompareTo(x: Result, y: Result): int {
    var left, right := x.count * y.wordCount, y.count * x.wordCount;
    if left != right then (if left > right then -1 else 1)
    else if x.count != y.count then (if x.count > y.count then -1 else 1)
    else CompareIgnoreCase(x.where, y.where)
  }

  /** `x` may come before `y` in a sorted result list. */
  predicate Before(x: Result, y: Result) {
    CompareTo(x, y) <= 0
  }

  predicate Positive(x: Result) {
    x.wordCount > 0
  }

  lemma RealProductPositive(b: real, d: real)
    requires b > 0.0 && d > 0.0
    ensures b * d > 0.0
  {
  }

  /** Cross-multiplication compares the two scores exactly. */
  lemma CrossMultiplication(x: Result, y: Result)
    requires Positive(x) && Positive(y)
    ensures x.count * y.wordCount > y.count * x.wordCount <==> Score(x) > Score(y)
    ensures x.count * y.wordCount == y.count * x.wordCount <==> Score(x) == Score(y)
  {
    var a, b, c, d := x.count as real, x.wordCount as real, y.count as real, y.wordCount as real;
    var k := b * d;
    RealProductPositive(b, d);
    assert Score(x) * k == a * d;
    assert Score(y) * k == c * b;
    assert (x.count * y.wordCount) as real == a * d;
    assert (y.count * x.wordCount) as real == c * b;
    assert Score(x) > Score(y) <==> Score(x) * k > Score(y) * k;
  }

  /** Swapping the arguments flips the sign: the order is antisymmetric and total. */
  lemma CompareToAntisymmetric(x: Result, y: Result)
    ensures CompareTo(x, y) == -CompareTo(y, x)
  {
    LessIsStrictTotalOrder();
  }

  /** Two results compare equal exactly when score, count and case-folded location agree. */
  lemma CompareToZero(x: Result, y: Result)
    requires Positive(x) && Positive(y)
    ensures CompareTo(x, y) == 0 <==> Score(x) == Score(y) && x.count == y.count && Lower(x.where) == Lower(y.where)
  {
    CrossMultiplication(x, y);
  }

  /** With positive word counts, `Before` is transitive. */
  lemma BeforeTransitive(x: Result, y: Result, z: Result)
    requires Positive(x) && Positive(y) && Positive(z)
    requires Before(x, y) && Before(y, z)
    ensures Before(x, z)
  {
    CrossMultiplication(x, y);
    CrossMultiplication(y, z);
    CrossMultiplication(x, z);
    LessIsStrictTotalOrder();
  }

  /** `Before` is a total preorder on results with positive word counts. */
  lemma BeforeTotal(x: Result, y: Result)
    ensures Before(x, y) || Before(y, x)
  {
    CompareToAntisymmetric(x, y);
  }

  /** Every result comes no later than every result after it. */
  predicate Sorted(s: seq<Result>) {
    forall i, j :: 0 <= i < j < |s| ==> Before(s[i], s[j])
  }

  predicate AllPositive(s: seq<Result>) {
    forall i :: 0 <= i < |s| ==> Positive(s[i])
  }

  /** A result that may precede the head of a sorted list may precede all of it. */
  lemma BeforeAll(x: Result, s: seq<Result>)
    requires Positive(x) && AllPositive(s) && Sorted(s)
    requires |s| > 0 && Before(x, s[0])
    ensures forall j :: 0 <= j < |s| ==> Before(x, s[j])
  {
    forall j | 0 < j < |s| ensures Before(x, s[j]) {
      BeforeTransitive(x, s[0], s[j]);
    }
  }

  /** The head of a sorted list precedes anything built from its tail and a later element. */
  lemma HeadBeforeRest(x: Result, s: seq<Result>, rest: seq<Result>)
    requires Sorted(s) && |s| > 0 && !Before(x, s[0])
    requires multiset(rest) == multiset(s[1..]) + multiset{x}
    ensures forall j :: 0 <= j < |rest| ==> Before(s[0], rest[j])
  {
    BeforeTotal(x, s[0]);
    forall j | 0 <= j < |rest| ensures Before(s[0], rest[j]) {
      assert rest[j] in multiset(rest);
      if rest[j] != x {
        assert rest[j] in multiset(s[1..]);
        var k :| 0 <= k < |s[1..]| && s[1..][k] == rest[j];
        assert Before(s[0], s[k + 1]);
      }
    }
  }

  lemma SortedCons(x: Result, s: seq<Result>)
    requires Sorted(s)
    requires forall j :: 0 <= j < |s| ==> Before(x, s[j])
    ensures Sorted([x] + s)
  {
  }

  /** Inserts `x` before the first element it may precede. */
  function Insert(x: Result, s: seq<Result>): (r: seq<Result>)
    requires Positive(x) && AllPositive(s) && Sorted(s)
    ensures Sorted(r) && AllPositive(r)
    ensures multiset(r) == multiset(s) + multiset{x}
    decreases |s|
  {
    if |s| == 0 then [x]
    else if Before(x, s[0]) then
      BeforeAll(x, s);
      SortedCons(x, s);
      [x] + s
    else
      var rest := Insert(x, s[1..]);
      assert s == [s[0]] + s[1..];
      HeadBeforeRest(x, s, rest);
      SortedCons(s[0], rest);
      [s[0]] + rest
  }

  /** `Collections.sort` on results: sorted, and a permutation of the input; `SortStable` adds stability. */
  function Sort(s: seq<Result>): (r: seq<Result>)
    requires AllPositive(s)
    ensures Sorted(r)
    ensures multiset(r) == multiset(s)
    ensures |r| == |s|
    decreases |s|
  {
    if |s| == 0 then []
    else
      assert s == [s[0]] + s[1..];
      Insert(s[0], Sort(s[1..]))
  }

  /** The results of `s` that compare equal to `e`, in their order in `s`. */
  function Ties(s: seq<Result>, e: Result): (r: seq<Result>)
    ensures forall i :: 0 <= i < |r| ==> CompareTo(r[i], e) == 0
    ensures forall x :: x in r ==> x in s
    decreases |s|
  {
    if |s| == 0 then []
    else
      (if CompareTo(s[0], e) == 0 then [s[0]] else []) + Ties(s[1..], e)
  }

  /** Comparing equal is transitive over positive word counts. */
  lemma TieTransitive(x: Result, y: Result, e: Result)
    requires Positive(x) && Positive(y) && Positive(e)
    requires CompareTo(x, e) == 0 && CompareTo(y, e) == 0
    ensures CompareTo(x, y) == 0
  {
    CompareToZero(x, e);
    CompareToZero(y, e);
    CompareToZero(x, y);
  }

  /** The ties of a list with one more element in front. */
  lemma TiesCons(x: Result, s: seq<Result>, e: Result)
    ensures Ties([x] + s, e) == (if CompareTo(x, e) == 0 then [x] else []) + Ties(s, e)
  {
    assert ([x] + s)[1..] == s;
  }

  /** An element that must follow `y` does not compare equal to anything `y` compares equal to. */
  lemma NotBothTies(x: Result, y: Result, e: Result)
    requires Positive(x) && Positive(y) && Positive(e) && !Before(x, y)
    ensures CompareTo(x, e) != 0 || CompareTo(y, e) != 0
  {
    if CompareTo(x, e) == 0 && CompareTo(y, e) == 0 {
      TieTransitive(x, y, e);
    }
  }

  /** The two ways `Insert` places its element. */
  lemma InsertSteps(x: Result, s: seq<Result>)
    requires Positive(x) && AllPositive(s) && Sorted(s)
    ensures |s| == 0 || Before(x, s[0]) ==> Insert(x, s) == [x] + s
    ensures |s| > 0 && !Before(x, s[0]) ==>
              AllPositive(s[1..]) && Sorted(s[1..]) && Insert(x, s) == [s[0]] + Insert(x, s[1..])
  {
  }

  /** Two pieces of which at most one is non-empty may be put in either order. */
  lemma SwapEmpty(a: seq<Result>, b: seq<Result>, tail: seq<Result>)
    requires a == [] || b == []
    ensures a + (b + tail) == b + (a + tail)
  {
    if a == [] {
      assert a + (b + tail) == b + tail == b + (a + tail);
    } else {
      assert b + (a + tail) == a + tail == a + (b + tail);
    }
  }

  /** `Insert` puts its element ahead of every element of the list that compares equal to it. */
  lemma {:induction false} InsertTies(x: Result, s: seq<Result>, e: Result)
    requires Positive(x) && AllPositive(s) && Sorted(s) && Positive(e)
    ensures Ties(Insert(x, s), e) == (if CompareTo(x, e) == 0 then [x] else []) + Ties(s, e)
    decreases |s|
  {
    var tx := if CompareTo(x, e) == 0 then [x] else [];
    InsertSteps(x, s);
    if |s| == 0 || Before(x, s[0]) {
      TiesCons(x, s, e);
    } else {
      var t0 := if CompareTo(s[0], e) == 0 then [s[0]] else [];
      var rest := Insert(x, s[1..]);
      TiesCons(s[0], rest, e);
      InsertTies(x, s[1..], e);
      TiesCons(s[0], s[1..], e);
      assert s == [s[0]] + s[1..];
      NotBothTies(x, s[0], e);
      SwapEmpty(t0, tx, Ties(s[1..], e));
    }
  }

  /**
   * `Collections.sort` is stable: results that compare equal keep the order
   * they had in the input.
   */
  lemma {:induction false} SortStable(s: seq<Result>, e: Result)
    requires AllPositive(s) && Positive(e)
    ensures Ties(Sort(s), e) == Ties(s, e)
    decreases |s|
  {
    if |s| > 0 {
      SortStable(s[1..], e);
      InsertTies(s[0], Sort(s[1..]), e);
    }
  }
}
