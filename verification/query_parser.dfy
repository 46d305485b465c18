/**
 * The query parser's memo table: each query line is reduced by the stemmer
 * to its set of unique stems, the sorted stems joined by single spaces form
 * the key, and a line whose key is already present (or whose stem set is
 * empty) is skipped. The stemmer is a parameter.
 */
module Queries {
  import opened Text
  import opened StringOrder
  import opened InvertedIndex
  import opened ResultOrder
  import opened Search

  /** The `searchResults` tree map: cleaned query line to its results. */
  datatype QueryParser = QueryParser(searchResults: map<string, seq<Result>>)

  /** `new QueryParser(index)`. */
  function Fresh(): QueryParser {
    QueryParser(map[])
  }

  /** `String.join(" ", stems)` over a `TreeSet`: the stems in key order, one space apart. */
  function QueryKey(stems: set<string>): string {
    Join(SortedStrings(stems), " ")
  }

  /** Stems as the stemmer produces them: non-empty and without spaces. */
  predicate Words(stems: set<string>) {
    forall w :: w in stems ==> |w| > 0 && ' ' !in w
  }

  /** Lines with different stem sets never share a key: the key determines the stems. */
  lemma QueryKeyInjective(a: set<string>, b: set<string>)
    requires Words(a) && Words(b)
    ensures QueryKey(a) == QueryKey(b) <==> a == b
  {
    if QueryKey(a) == QueryKey(b) {
      var sa, sb := SortedStrings(a), SortedStrings(b);
      JoinInjective(sa, sb, ' ');
      assert forall x :: x in a <==> x in sa;
    }
  }

  /**
   * `parseLine(line, exact)`: nothing happens for a line without stems or
   * whose key is already present; otherwise one entry is added, mapping the
   * key to the search for the stems in key order.
   */
  function ParseLine(qp: QueryParser, idx: Index, uniqueStems: string -> set<string>, line: string, exact: bool): (r: QueryParser)
    requires Valid(idx)
    ensures uniqueStems(line) == {} ==> r == qp
    ensures r.searchResults.Keys == qp.searchResults.Keys + if uniqueStems(line) == {} then {} else {QueryKey(uniqueStems(line))}
    ensures forall k :: k in qp.searchResults ==> r.searchResults[k] == qp.searchResults[k]
    ensures uniqueStems(line) != {} && QueryKey(uniqueStems(line)) !in qp.searchResults ==>
              r.searchResults[QueryKey(uniqueStems(line))] == Run(idx, SortedStrings(uniqueStems(line)), exact)
  {
    var queries := uniqueStems(line);
    if queries == {} then qp
    else
      var key := QueryKey(queries);
      if key in qp.searchResults then qp
      else QueryParser(qp.searchResults[key := Run(idx, SortedStrings(queries), exact)])
  }

  /** Every stored entry holds the search (exact or partial) for the stems its key spells. */
  ghost predicate Memoized(qp: QueryParser, idx: Index)
    requires Valid(idx)
  {
    forall k :: k in qp.searchResults ==>
      exists stems: set<string>, exact: bool :: stems != {} && k == QueryKey(stems)
        && qp.searchResults[k] == Run(idx, SortedStrings(stems), exact)
  }

  /** Parsing a line keeps every entry the search for its own key. */
  lemma ParseLineMemoized(qp: QueryParser, idx: Index, uniqueStems: string -> set<string>, line: string, exact: bool)
    requires Valid(idx) && Memoized(qp, idx)
    ensures Memoized(ParseLine(qp, idx, uniqueStems, line, exact), idx)
  {
    var r := ParseLine(qp, idx, uniqueStems, line, exact);
    var stems := uniqueStems(line);
    forall k | k in r.searchResults
      ensures exists s: set<string>, e: bool :: s != {} && k == QueryKey(s) && r.searchResults[k] == Run(idx, SortedStrings(s), e)
    {
      if k in qp.searchResults {
        var s: set<string>, e: bool :| s != {} && k == QueryKey(s) && qp.searchResults[k] == Run(idx, SortedStrings(s), e);
      } else {
        assert stems != {} && k == QueryKey(stems) && r.searchResults[k] == Run(idx, SortedStrings(stems), exact);
      }
    }
  }

  /**
   * A second line with the same stems (in any order, with any repetition,
   * and whichever search mode) leaves the table as the first one left it.
   */
  lemma SameStemsOnce(qp: QueryParser, idx: Index, uniqueStems: string -> set<string>,
                      first: string, second: string, exact1: bool, exact2: bool)
    requires Valid(idx)
    requires uniqueStems(first) == uniqueStems(second)
    ensures var once := ParseLine(qp, idx, uniqueStems, first, exact1);
            ParseLine(once, idx, uniqueStems, second, exact2) == once
  {
  }

  /**
   * Lines with different stem sets get separate entries: after both are
   * parsed into a table holding neither key, both keys are present.
   */
  lemma DifferentStemsTwoEntries(qp: QueryParser, idx: Index, uniqueStems: string -> set<string>,
                                 first: string, second: string, exact1: bool, exact2: bool)
    requires Valid(idx)
    requires Words(uniqueStems(first)) && Words(uniqueStems(second))
    requires uniqueStems(first) != {} && uniqueStems(second) != {}
    requires uniqueStems(first) != uniqueStems(second)
    requires QueryKey(uniqueStems(first)) !in qp.searchResults
    ensures var twice := ParseLine(ParseLine(qp, idx, uniqueStems, first, exact1), idx, uniqueStems, second, exact2);
            |twice.searchResults| == |qp.searchResults| + if QueryKey(uniqueStems(second)) in qp.searchResults then 1 else 2
  {
    QueryKeyInjective(uniqueStems(first), uniqueStems(second));
    var k1, k2 := QueryKey(uniqueStems(first)), QueryKey(uniqueStems(second));
    var keys := qp.searchResults.Keys;
    if k2 in keys {
      assert keys + {k1} + {k2} == keys + {k1};
    } else {
      assert |keys + {k1} + {k2}| == |keys + {k1}| + 1;
    }
  }
}
