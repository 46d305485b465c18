/**
 * Exact and partial search over an inverted index. Both walk the matched
 * words, keep one result per location (a list in first-visit order plus a
 * lookup from location to its running count), and finally sort the list.
 * A word listed twice is visited twice, so its positions count twice.
 */
module Search {
  import opened Text
  import opened StringOrder
  import opened InvertedIndex
  import opened ResultOrder

  /** The `results` list (as the locations it holds) and the `lookup` map (as their counts). */
  datatype Tally = Tally(order: seq<string>, counts: map<string, int>)

  /** The list and the lookup describe the same locations, each listed once. */
  ghost predicate TallyValid(t: Tally) {
    Distinct(t.order) && forall l :: l in t.counts <==> l in t.order
  }

  /** The count a location has so far; zero before its first visit. */
  function CountOf(t: Tally, location: string): int {
    if location in t.counts then t.counts[location] else 0
  }

  /**
   * Reference meaning of a result's count: the number of positions of each
   * listed word at `location`, summed over the list.
   */
  function Occurrences(idx: Index, words: seq<string>, location: string): int
    decreases |words|
  {
    if |words| == 0 then 0
    else Occurrences(idx, words[..|words| - 1], location) + |GetPositions(idx, words[|words| - 1], location)|
  }

  /** One pass of the inner loop of `searchHelper`: create the result if new, then `updateCount`. */
  function Visit(t: Tally, idx: Index, word: string, location: string): Tally
    requires HasLocation(idx, word, location)
  {
    var n := |idx.terms[word][location]|;
    if location in t.counts then Tally(t.order, t.counts[location := t.counts[location] + n])
    else Tally(t.order + [location], t.counts[location := n])
  }

  function VisitAll(t: Tally, idx: Index, word: string, locations: seq<string>): Tally
    requires forall i :: 0 <= i < |locations| ==> HasLocation(idx, word, locations[i])
    decreases |locations|
  {
    if |locations| == 0 then t
    else VisitAll(Visit(t, idx, word, locations[0]), idx, word, locations[1..])
  }

  lemma {:induction false} VisitAllCounts(t: Tally, idx: Index, word: string, locations: seq<string>)
    requires forall i :: 0 <= i < |locations| ==> HasLocation(idx, word, locations[i])
    requires TallyValid(t) && Distinct(locations)
    ensures var r := VisitAll(t, idx, word, locations);
      && TallyValid(r)
      && (forall l :: l in r.counts <==> l in t.counts || l in locations)
      && (forall l :: CountOf(r, l) == CountOf(t, l) + if l in locations then |idx.terms[word][l]| else 0)
    decreases |locations|
  {
    if |locations| > 0 {
      var l0 := locations[0];
      var t1 := Visit(t, idx, word, l0);
      assert TallyValid(t1);
      var rest := locations[1..];
      assert Distinct(rest);
      VisitAllCounts(t1, idx, word, rest);
      assert forall l :: l in locations <==> l == l0 || l in rest;
      assert l0 !in rest;
    }
  }

  /**
   * `searchHelper(results, lookup, word)`: every location of `word` gets a
   * result, and each result's count grows by the word's positions there.
   */
  function SearchHelper(t: Tally, idx: Index, word: string): (r: Tally)
    requires HasWord(idx, word) && TallyValid(t)
    ensures TallyValid(r)
    ensures forall l :: l in r.counts <==> l in t.counts || HasLocation(idx, word, l)
    ensures forall l :: CountOf(r, l) == CountOf(t, l) + |GetPositions(idx, word, l)|
  {
    var locations := SortedStrings(idx.terms[word].Keys);
    assert Distinct(locations) by {
      forall i, j | 0 <= i < j < |locations| ensures locations[i] != locations[j] {
        LessIrreflexive(locations[i]);
      }
    }
    VisitAllCounts(t, idx, word, locations);
    VisitAll(t, idx, word, locations)
  }

  /** The searches' loops over the matched words, from empty list and lookup. */
  function Gather(idx: Index, words: seq<string>): (t: Tally)
    requires forall i :: 0 <= i < |words| ==> HasWord(idx, words[i])
    ensures TallyValid(t)
    ensures forall l :: l in t.counts <==> exists w :: w in words && HasLocation(idx, w, l)
    ensures forall l :: CountOf(t, l) == Occurrences(idx, words, l)
    decreases |words|
  {
    if |words| == 0 then Tally([], map[])
    else
      var init := words[..|words| - 1];
      var last := words[|words| - 1];
      var t := SearchHelper(Gather(idx, init), idx, last);
      assert forall w :: w in words <==> w in init || w == last;
      t
  }

  /** Every location with a result has a count and a non-zero count of positions. */
  lemma {:induction false} GatherPositive(idx: Index, words: seq<string>, l: string)
    requires Valid(idx)
    requires forall i :: 0 <= i < |words| ==> HasWord(idx, words[i])
    requires exists w :: w in words && HasLocation(idx, w, l)
    ensures Occurrences(idx, words, l) > 0
    decreases |words|
  {
    var init := words[..|words| - 1];
    var last := words[|words| - 1];
    if HasLocation(idx, last, l) {
      OccurrencesNonNegative(idx, init, l);
      assert idx.terms[last][l] != {};
    } else {
      var w :| w in words && HasLocation(idx, w, l);
      assert w in init;
      GatherPositive(idx, init, l);
    }
  }

  lemma {:induction false} OccurrencesNonNegative(idx: Index, words: seq<string>, l: string)
    ensures Occurrences(idx, words, l) >= 0
    decreases |words|
  {
    if |words| > 0 {
      OccurrencesNonNegative(idx, words[..|words| - 1], l);
    }
  }

  /** Occurrences over two lists one after the other add up. */
  lemma {:induction false} OccurrencesAppend(idx: Index, a: seq<string>, b: seq<string>, l: string)
    ensures Occurrences(idx, a + b, l) == Occurrences(idx, a, l) + Occurrences(idx, b, l)
    decreases |b|
  {
    if |b| > 0 {
      var ab := a + b;
      assert ab[..|ab| - 1] == a + b[..|b| - 1];
      assert ab[|ab| - 1] == b[|b| - 1];
      OccurrencesAppend(idx, a, b[..|b| - 1], l);
    } else {
      assert a + b == a;
    }
  }

  /** A result per visited location, in first-visit order, before sorting. */
  function ToResults(idx: Index, t: Tally): (r: seq<Result>)
    requires TallyValid(t)
    requires forall l :: l in t.counts ==> l in idx.wordCounts
  {
    seq(|t.order|, i requires 0 <= i < |t.order| =>
      Result(t.order[i], t.counts[t.order[i]], idx.wordCounts[t.order[i]]))
  }

  /** Each location has at most one result. */
  predicate DistinctWhere(s: seq<Result>) {
    forall i, j :: 0 <= i < j < |s| ==> s[i].where != s[j].where
  }

  /** `location` has a result in `s`. */
  ghost predicate Found(s: seq<Result>, location: string) {
    exists i :: 0 <= i < |s| && s[i].where == location
  }

  lemma {:induction false} InsertKeepsDistinct(x: Result, s: seq<Result>)
    requires Positive(x) && AllPositive(s) && Sorted(s)
    requires DistinctWhere(s) && !Found(s, x.where)
    ensures DistinctWhere(Insert(x, s))
    decreases |s|
  {
    if |s| > 0 && !Before(x, s[0]) {
      var rest := Insert(x, s[1..]);
      assert s == [s[0]] + s[1..];
      InsertKeepsDistinct(x, s[1..]);
      forall j | 0 <= j < |rest| ensures rest[j].where != s[0].where {
        assert rest[j] in multiset(rest);
        if rest[j] != x {
          assert rest[j] in multiset(s[1..]);
          var k :| 0 <= k < |s[1..]| && s[1..][k] == rest[j];
          assert s[k + 1] == rest[j];
        } else {
          assert s[0].where != x.where;
        }
      }
    }
  }

  /** Sorting keeps every element and adds none. */
  lemma SortSameElements(s: seq<Result>)
    requires AllPositive(s)
    ensures forall x :: x in Sort(s) <==> x in s
  {
    var r := Sort(s);
    forall x ensures x in r <==> x in s {
      assert x in r <==> x in multiset(r);
      assert x in s <==> x in multiset(s);
    }
  }

  /** Sorting keeps one result per location. */
  lemma {:induction false} SortKeepsDistinct(s: seq<Result>)
    requires AllPositive(s) && DistinctWhere(s)
    ensures DistinctWhere(Sort(s))
    decreases |s|
  {
    if |s| > 0 {
      assert s == [s[0]] + s[1..];
      var rest := Sort(s[1..]);
      SortKeepsDistinct(s[1..]);
      SortSameElements(s[1..]);
      forall k | 0 <= k < |rest| ensures rest[k].where != s[0].where {
        assert rest[k] in s[1..];
        var m :| 0 <= m < |s[1..]| && s[1..][m] == rest[k];
        assert s[m + 1] == rest[k];
      }
      InsertKeepsDistinct(s[0], rest);
    }
  }

  /** What a result for `words` says about its location. */
  ghost predicate Describes(idx: Index, words: seq<string>, x: Result) {
    && x.count == Occurrences(idx, words, x.where)
    && x.count > 0
    && Counted(idx, x.where)
    && x.wordCount == idx.wordCounts[x.where]
  }

  /** On a valid index every location the loops visit has a word count. */
  lemma GatherCounted(idx: Index, words: seq<string>)
    requires Valid(idx)
    requires forall i :: 0 <= i < |words| ==> HasWord(idx, words[i])
    ensures forall l :: l in Gather(idx, words).counts ==> l in idx.wordCounts
  {
    var t := Gather(idx, words);
    forall l | l in t.counts ensures l in idx.wordCounts {
      var w :| w in words && HasLocation(idx, w, l);
    }
  }

  /** The result list holds one result per visited location, and only those. */
  lemma ToResultsFound(idx: Index, t: Tally)
    requires TallyValid(t)
    requires forall l :: l in t.counts ==> l in idx.wordCounts
    ensures forall l :: Found(ToResults(idx, t), l) <==> l in t.counts
  {
    var u := ToResults(idx, t);
    forall l ensures Found(u, l) <==> l in t.counts {
      if l in t.counts {
        var i :| 0 <= i < |t.order| && t.order[i] == l;
        assert u[i].where == l;
      }
    }
  }

  /** The unsorted result list the loops leave behind. */
  function Collect(idx: Index, words: seq<string>): (u: seq<Result>)
    requires Valid(idx)
    requires forall i :: 0 <= i < |words| ==> HasWord(idx, words[i])
    ensures AllPositive(u) && DistinctWhere(u)
    ensures forall l :: Found(u, l) <==> exists w :: w in words && HasLocation(idx, w, l)
    ensures forall i :: 0 <= i < |u| ==> Describes(idx, words, u[i])
  {
    var t := Gather(idx, words);
    GatherCounted(idx, words);
    var u := ToResults(idx, t);
    GatherDescribed(idx, words);
    ToResultsFound(idx, t);
    u
  }

  /** Each result the loops leave behind carries its location's summed count and word count. */
  lemma GatherDescribed(idx: Index, words: seq<string>)
    requires Valid(idx)
    requires forall i :: 0 <= i < |words| ==> HasWord(idx, words[i])
    requires forall l :: l in Gather(idx, words).counts ==> l in idx.wordCounts
    ensures var u := ToResults(idx, Gather(idx, words));
            AllPositive(u) && forall i :: 0 <= i < |u| ==> Describes(idx, words, u[i])
  {
    var t := Gather(idx, words);
    var u := ToResults(idx, t);
    forall i | 0 <= i < |u| ensures Describes(idx, words, u[i]) {
      assert u[i].where == t.order[i] && u[i].where in t.counts;
      GatherPositive(idx, words, u[i].where);
    }
  }

  /**
   * Sorted results for a list of index words: one per location the words
   * occur in, each counting the words' positions there and carrying the
   * location's word count.
   */
  function Rank(idx: Index, words: seq<string>): (r: seq<Result>)
    requires Valid(idx)
    requires forall i :: 0 <= i < |words| ==> HasWord(idx, words[i])
    ensures Sorted(r) && DistinctWhere(r)
    ensures forall l :: Found(r, l) <==> exists w :: w in words && HasLocation(idx, w, l)
    ensures forall i :: 0 <= i < |r| ==> Describes(idx, words, r[i])
    ensures forall e :: Positive(e) ==> Ties(r, e) == Ties(Collect(idx, words), e)
  {
    var u := Collect(idx, words);
    assert forall e :: Positive(e) ==> Ties(Sort(u), e) == Ties(u, e) by {
      forall e | Positive(e) ensures Ties(Sort(u), e) == Ties(u, e) {
        SortStable(u, e);
      }
    }
    SortKeepsDistinct(u);
    SortFound(u);
    SortDescribes(idx, words, u);
    Sort(u)
  }

  /** Sorting keeps the set of locations that have a result. */
  lemma SortFound(u: seq<Result>)
    requires AllPositive(u)
    ensures forall l :: Found(Sort(u), l) <==> Found(u, l)
  {
    var r := Sort(u);
    SortSameElements(u);
    forall l ensures Found(r, l) <==> Found(u, l) {
      if Found(r, l) {
        var i :| 0 <= i < |r| && r[i].where == l;
        assert r[i] in u;
      }
      if Found(u, l) {
        var i :| 0 <= i < |u| && u[i].where == l;
        assert u[i] in r;
      }
    }
  }

  lemma SortDescribes(idx: Index, words: seq<string>, u: seq<Result>)
    requires AllPositive(u)
    requires forall i :: 0 <= i < |u| ==> Describes(idx, words, u[i])
    ensures forall i :: 0 <= i < |Sort(u)| ==> Describes(idx, words, Sort(u)[i])
  {
    var r := Sort(u);
    SortSameElements(u);
    forall i | 0 <= i < |r| ensures Describes(idx, words, r[i]) {
      assert r[i] in u;
    }
  }

  /** The queries that are words of the index, in query order (the `hasWord` filter). */
  function IndexedWords(idx: Index, queries: seq<string>): (r: seq<string>)
    ensures forall i :: 0 <= i < |r| ==> HasWord(idx, r[i])
    ensures forall w :: w in r <==> w in queries && HasWord(idx, w)
    decreases |queries|
  {
    if |queries| == 0 then []
    else
      var init := IndexedWords(idx, queries[..|queries| - 1]);
      var last := queries[|queries| - 1];
      assert forall w :: w in queries <==> w in queries[..|queries| - 1] || w == last;
      if HasWord(idx, last) then init + [last] else init
  }

  /** Dropping the queries that are not indexed changes no count. */
  lemma {:induction false} IndexedOccurrences(idx: Index, queries: seq<string>, l: string)
    ensures Occurrences(idx, IndexedWords(idx, queries), l) == Occurrences(idx, queries, l)
    decreases |queries|
  {
    if |queries| > 0 {
      var init := queries[..|queries| - 1];
      var last := queries[|queries| - 1];
      IndexedOccurrences(idx, init, l);
      if HasWord(idx, last) {
        assert (IndexedWords(idx, init) + [last])[..|IndexedWords(idx, init)|] == IndexedWords(idx, init);
      }
    }
  }

  /**
   * `exactSearch(queries)`: one result per location where some query is a
   * word of the index, its count being all the queries' positions there.
   */
  function ExactSearch(idx: Index, queries: seq<string>): (r: seq<Result>)
    requires Valid(idx)
    ensures Sorted(r) && DistinctWhere(r)
    ensures forall l :: Found(r, l) <==> exists q :: q in queries && HasLocation(idx, q, l)
    ensures forall i :: 0 <= i < |r| ==>
              && r[i].count == Occurrences(idx, queries, r[i].where)
              && r[i].count > 0
              && Counted(idx, r[i].where)
              && r[i].wordCount == idx.wordCounts[r[i].where]
    ensures forall e :: Positive(e) ==> Ties(r, e) == Ties(Collect(idx, IndexedWords(idx, queries)), e)
  {
    var words := IndexedWords(idx, queries);
    forall l { IndexedOccurrences(idx, queries, l); }
    Rank(idx, words)
  }

  /** The index words `w` with `w.startsWith(query)`, in key order: the reference for the scan. */
  function FilterPrefixed(words: seq<string>, query: string): (r: seq<string>)
    ensures forall w :: w in r <==> w in words && StartsWith(w, query)
    decreases |words|
  {
    if |words| == 0 then []
    else (if StartsWith(words[0], query) then [words[0]] else []) + FilterPrefixed(words[1..], query)
  }

  /** Iterates from the current key while it starts with `query`, stopping at the first that does not. */
  function TakePrefixed(words: seq<string>, query: string): seq<string>
    decreases |words|
  {
    if |words| == 0 || !StartsWith(words[0], query) then []
    else [words[0]] + TakePrefixed(words[1..], query)
  }

  /** `tailMap(query).keySet()` walked until the first key without the prefix. */
  function TailScan(words: seq<string>, query: string): seq<string>
    decreases |words|
  {
    if |words| == 0 then []
    else if Less(words[0], query) then TailScan(words[1..], query)
    else TakePrefixed(words, query)
  }

  /** The words the partial search visits for one query. */
  function Scan(idx: Index, query: string): seq<string> {
    TailScan(SortedStrings(idx.terms.Keys), query)
  }

  /** The index words that start with `query`, in key order. */
  function PrefixMatches(idx: Index, query: string): (r: seq<string>)
    ensures forall w :: w in r <==> HasWord(idx, w) && StartsWith(w, query)
  {
    FilterPrefixed(SortedStrings(idx.terms.Keys), query)
  }

  lemma SortedTail(words: seq<string>)
    requires StrictlySorted(words) && |words| > 0
    ensures StrictlySorted(words[1..])
  {
  }

  lemma {:induction false} FilterNone(words: seq<string>, query: string)
    requires forall k :: 0 <= k < |words| ==> !StartsWith(words[k], query)
    ensures FilterPrefixed(words, query) == []
    decreases |words|
  {
    if |words| > 0 {
      FilterNone(words[1..], query);
    }
  }

  /** Past the tail map's start, a key without the prefix means no later key has it. */
  lemma NoPrefixedAfter(words: seq<string>, query: string)
    requires StrictlySorted(words) && |words| > 0
    requires LessOrEqual(query, words[0]) && !StartsWith(words[0], query)
    ensures FilterPrefixed(words, query) == []
  {
    forall k | 0 < k < |words| ensures !StartsWith(words[k], query) {
      PrefixBlock(query, words[0], words[k]);
    }
    FilterNone(words, query);
  }

  /** From the tail map's first key on, the early-stopping walk finds every prefixed key. */
  lemma {:induction false} TakeIsFilter(words: seq<string>, query: string)
    requires StrictlySorted(words)
    requires |words| > 0 ==> LessOrEqual(query, words[0])
    ensures TakePrefixed(words, query) == FilterPrefixed(words, query)
    decreases |words|
  {
    if |words| > 0 {
      if StartsWith(words[0], query) {
        SortedTail(words);
        if |words| > 1 {
          assert Less(words[0], words[1]);
          if words[0] != query {
            LessTransitive(query, words[0], words[1]);
          }
        }
        TakeIsFilter(words[1..], query);
      } else {
        NoPrefixedAfter(words, query);
      }
    }
  }

  /** Keys below the query never start with it, so the scan is the filter. */
  lemma {:induction false} TailScanIsFilter(words: seq<string>, query: string)
    requires StrictlySorted(words)
    ensures TailScan(words, query) == FilterPrefixed(words, query)
    decreases |words|
  {
    if |words| > 0 {
      if Less(words[0], query) {
        PrefixNotLess(words[0], query);
        LessIsStrictTotalOrder();
        assert !StartsWith(words[0], query);
        SortedTail(words);
        TailScanIsFilter(words[1..], query);
      } else {
        LessTotal(words[0], query);
        TakeIsFilter(words, query);
      }
    }
  }

  /** The tail-map walk with its early `break` visits exactly the index words with the prefix. */
  lemma ScanIsPrefixMatches(idx: Index, query: string)
    ensures Scan(idx, query) == PrefixMatches(idx, query)
  {
    TailScanIsFilter(SortedStrings(idx.terms.Keys), query);
  }

  /** The words the partial search visits, query after query. */
  function PartialWords(idx: Index, queries: seq<string>): (r: seq<string>)
    ensures forall i :: 0 <= i < |r| ==> HasWord(idx, r[i])
    decreases |queries|
  {
    if |queries| == 0 then []
    else
      var last := queries[|queries| - 1];
      ScanIsPrefixMatches(idx, last);
      PartialWords(idx, queries[..|queries| - 1]) + Scan(idx, last)
  }

  lemma {:induction false} PartialWordsMatch(idx: Index, queries: seq<string>)
    ensures forall w :: w in PartialWords(idx, queries) <==>
              HasWord(idx, w) && exists q :: q in queries && StartsWith(w, q)
    decreases |queries|
  {
    if |queries| > 0 {
      var init := queries[..|queries| - 1];
      var last := queries[|queries| - 1];
      PartialWordsMatch(idx, init);
      ScanIsPrefixMatches(idx, last);
      assert forall q :: q in queries <==> q in init || q == last;
    }
  }

  /**
   * Reference meaning of a partial result's count: for each query, the
   * positions at `location` of every index word starting with it.
   */
  function PartialOccurrences(idx: Index, queries: seq<string>, location: string): int
    decreases |queries|
  {
    if |queries| == 0 then 0
    else PartialOccurrences(idx, queries[..|queries| - 1], location)
         + Occurrences(idx, PrefixMatches(idx, queries[|queries| - 1]), location)
  }

  lemma {:induction false} PartialWordsOccurrences(idx: Index, queries: seq<string>, l: string)
    ensures Occurrences(idx, PartialWords(idx, queries), l) == PartialOccurrences(idx, queries, l)
    decreases |queries|
  {
    if |queries| > 0 {
      var init := queries[..|queries| - 1];
      var last := queries[|queries| - 1];
      PartialWordsOccurrences(idx, init, l);
      ScanIsPrefixMatches(idx, last);
      OccurrencesAppend(idx, PartialWords(idx, init), Scan(idx, last), l);
    }
  }

  /**
   * `partialSearch(queries)`: one result per location of an index word that
   * starts with some query, counting the positions of every such word, once
   * per query it starts with.
   */
  function PartialSearch(idx: Index, queries: seq<string>): (r: seq<Result>)
    requires Valid(idx)
    ensures Sorted(r) && DistinctWhere(r)
    ensures forall l :: Found(r, l) <==> exists q, w :: q in queries && StartsWith(w, q) && HasLocation(idx, w, l)
    ensures forall i :: 0 <= i < |r| ==>
              && r[i].count == PartialOccurrences(idx, queries, r[i].where)
              && r[i].count > 0
              && Counted(idx, r[i].where)
              && r[i].wordCount == idx.wordCounts[r[i].where]
    ensures forall e :: Positive(e) ==> Ties(r, e) == Ties(Collect(idx, PartialWords(idx, queries)), e)
  {
    var words := PartialWords(idx, queries);
    PartialWordsMatch(idx, queries);
    forall l { PartialWordsOccurrences(idx, queries, l); }
    Rank(idx, words)
  }

  /** A word answers a query: equal to it in exact mode, starting with it otherwise. */
  predicate Answers(word: string, query: string, exact: bool) {
    if exact then word == query else StartsWith(word, query)
  }

  /** The index words a search visits, in visiting order. */
  function Visited(idx: Index, queries: seq<string>, exact: bool): (r: seq<string>)
    ensures forall i :: 0 <= i < |r| ==> HasWord(idx, r[i])
  {
    if exact then IndexedWords(idx, queries) else PartialWords(idx, queries)
  }

  /**
   * `search(queries, exact)`: ranked results for the locations of the words
   * that answer some query; results that compare equal stay in the order
   * their locations were first met.
   */
  function Run(idx: Index, queries: seq<string>, exact: bool): (r: seq<Result>)
    requires Valid(idx)
    ensures Sorted(r) && DistinctWhere(r)
    ensures forall l :: Found(r, l) <==> exists q, w :: q in queries && Answers(w, q, exact) && HasLocation(idx, w, l)
    ensures forall e :: Positive(e) ==> Ties(r, e) == Ties(Collect(idx, Visited(idx, queries, exact)), e)
  {
    if exact then
      var r := ExactSearch(idx, queries);
      ExactAnswers(idx, queries);
      r
    else
      var r := PartialSearch(idx, queries);
      PartialAnswers(idx, queries);
      r
  }

  lemma ExactAnswers(idx: Index, queries: seq<string>)
    requires Valid(idx)
    ensures forall l :: Found(ExactSearch(idx, queries), l) <==>
              exists q, w :: q in queries && Answers(w, q, true) && HasLocation(idx, w, l)
  {
    forall l | Found(ExactSearch(idx, queries), l)
      ensures exists q, w :: q in queries && Answers(w, q, true) && HasLocation(idx, w, l)
    {
      var q :| q in queries && HasLocation(idx, q, l);
      assert Answers(q, q, true);
    }
  }

  lemma PartialAnswers(idx: Index, queries: seq<string>)
    requires Valid(idx)
    ensures forall l :: Found(PartialSearch(idx, queries), l) <==>
              exists q, w :: q in queries && Answers(w, q, false) && HasLocation(idx, w, l)
  {
    var r := PartialSearch(idx, queries);
    forall l ensures Found(r, l) <==> exists q, w :: q in queries && Answers(w, q, false) && HasLocation(idx, w, l) {
      if Found(r, l) {
        var q, w :| q in queries && StartsWith(w, q) && HasLocation(idx, w, l);
        assert Answers(w, q, false);
      }
      if exists q, w :: q in queries && Answers(w, q, false) && HasLocation(idx, w, l) {
        var q, w :| q in queries && Answers(w, q, false) && HasLocation(idx, w, l);
        assert StartsWith(w, q);
      }
    }
  }

  /** Every location an exact search finds, the partial search for the same queries finds too. */
  lemma ExactWithinPartial(idx: Index, queries: seq<string>, location: string)
    requires Valid(idx)
    ensures Found(ExactSearch(idx, queries), location) ==> Found(PartialSearch(idx, queries), location)
  {
    if Found(ExactSearch(idx, queries), location) {
      var q :| q in queries && HasLocation(idx, q, location);
      assert StartsWith(q, q);
    }
  }
}
