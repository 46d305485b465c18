/**
 * The inverted index: for every word, the locations it occurs in and the
 * positions it occupies there, plus a per-location word count (the highest
 * position ever recorded for that location). All operations are values in,
 * value out; the merge puts copies, not shared sets, into the target.
 */
module InvertedIndex {
  import opened Wrappers

  /** word -> location -> positions, and location -> word count. */
  datatype Index = Index(terms: map<string, map<string, set<int>>>, wordCounts: map<string, int>)

  /** A freshly constructed index. */
  function Empty(): Index {
    Index(map[], map[])
  }

  function Max(a: int, b: int): int {
    if a < b then b else a
  }

  /** `hasWord(word)`. */
  predicate HasWord(idx: Index, word: string) {
    word in idx.terms
  }

  /** `hasLocation(word, location)`. */
  predicate HasLocation(idx: Index, word: string, location: string) {
    word in idx.terms && location in idx.terms[word]
  }

  /** `hasPosition(word, location, position)`. */
  predicate HasPosition(idx: Index, word: string, location: string, position: int) {
    HasLocation(idx, word, location) && position in idx.terms[word][location]
  }

  /** `hasLocation(location)`: the location has a word count. */
  predicate Counted(idx: Index, location: string) {
    location in idx.wordCounts
  }

  /** `getPositions(word, location)`: empty when the pair is not indexed. */
  function GetPositions(idx: Index, word: string, location: string): (r: set<int>)
    ensures forall p :: p in r <==> HasPosition(idx, word, location, p)
    ensures !HasLocation(idx, word, location) ==> r == {}
  {
    if HasLocation(idx, word, location) then idx.terms[word][location] else {}
  }

  /** `getLocations(word)`: empty when the word is not indexed. */
  function GetLocations(idx: Index, word: string): (r: set<string>)
    ensures forall l :: l in r <==> HasLocation(idx, word, l)
  {
    if HasWord(idx, word) then idx.terms[word].Keys else {}
  }

  /** `getWordCount(location)`; `None` where the unboxing of a missing count throws. */
  function GetWordCount(idx: Index, location: string): (r: Option<int>)
    ensures r.Some? <==> Counted(idx, location)
    ensures r.Some? ==> r.value == idx.wordCounts[location]
  {
    if location in idx.wordCounts then Some(idx.wordCounts[location]) else None
  }

  /** `getWords()`: the indexed words. */
  function GetWords(idx: Index): (r: set<string>)
    ensures forall w :: w in r <==> HasWord(idx, w)
  {
    idx.terms.Keys
  }

  /** `getLocations()`: the locations that have a word count. */
  function GetAllLocations(idx: Index): (r: set<string>)
    ensures forall l :: l in r <==> Counted(idx, l)
  {
    idx.wordCounts.Keys
  }

  /** `getTotalWords()`: despite its name, the number of distinct indexed words. */
  function GetTotalWords(idx: Index): (r: nat)
    ensures r == |GetWords(idx)|
  {
    |idx.terms.Keys|
  }

  /**
   * The shape every index built through `Add` and `AddAll` with positive
   * positions has: no empty inner map or position set, every indexed
   * location has a count, and the count bounds its positions.
   */
  ghost predicate Valid(idx: Index) {
    && (forall w :: w in idx.terms ==> idx.terms[w] != map[])
    && (forall w, l :: HasLocation(idx, w, l) ==> idx.terms[w][l] != {} && l in idx.wordCounts)
    && (forall w, l, p :: HasPosition(idx, w, l, p) ==> l in idx.wordCounts && 1 <= p <= idx.wordCounts[l])
    && (forall l :: l in idx.wordCounts ==> idx.wordCounts[l] >= 1)
  }

  /** `add(word, location, position)`. */
  function Add(idx: Index, word: string, location: string, position: int): (r: Index)
    ensures forall w, l, p :: HasPosition(r, w, l, p) <==>
              HasPosition(idx, w, l, p) || (w == word && l == location && p == position)
    ensures r.wordCounts.Keys == idx.wordCounts.Keys + {location}
    ensures forall l :: l in idx.wordCounts && l != location ==> r.wordCounts[l] == idx.wordCounts[l]
    ensures Counted(idx, location) ==> r.wordCounts[location] == Max(idx.wordCounts[location], position)
    ensures !Counted(idx, location) ==> r.wordCounts[location] == position
  {
    var inner := if word in idx.terms then idx.terms[word] else map[];
    var positions := if location in inner then inner[location] else {};
    var count := if location in idx.wordCounts && idx.wordCounts[location] > position
                 then idx.wordCounts[location] else position;
    Index(idx.terms[word := inner[location := positions + {position}]], idx.wordCounts[location := count])
  }

  /**
   * `add` only touches the entry of `word` at `location`: every other word's
   * map, and every other location under `word`, is the same as before.
   */
  lemma AddFrame(idx: Index, word: string, location: string, position: int)
    ensures var r := Add(idx, word, location, position);
      && r.terms.Keys == idx.terms.Keys + {word}
      && (forall w :: w in idx.terms && w != word ==> r.terms[w] == idx.terms[w])
      && r.terms[word].Keys == GetLocations(idx, word) + {location}
      && (forall l :: l in r.terms[word] && l != location ==> r.terms[word][l] == idx.terms[word][l])
  {
  }

  lemma AddValid(idx: Index, word: string, location: string, position: int)
    requires Valid(idx) && position >= 1
    ensures Valid(Add(idx, word, location, position))
  {
    var r := Add(idx, word, location, position);
    AddFrame(idx, word, location, position);
    forall w | w in r.terms
      ensures r.terms[w] != map[]
    {
      if w == word { assert location in r.terms[w]; }
    }
    forall w, l | HasLocation(r, w, l)
      ensures r.terms[w][l] != {} && l in r.wordCounts
    {
      if w == word && l == location {
        assert position in r.terms[w][l];
      } else {
        assert HasLocation(idx, w, l);
      }
    }
    forall w, l, p | HasPosition(r, w, l, p)
      ensures l in r.wordCounts && 1 <= p <= r.wordCounts[l]
    {
      if !HasPosition(idx, w, l, p) {
        assert l == location && p == position;
      }
    }
  }

  /** `add(words, location, start)`: the words at consecutive positions from `start`. */
  function AddWords(idx: Index, words: seq<string>, location: string, start: int): Index
    decreases |words|
  {
    if |words| == 0 then idx
    else AddWords(Add(idx, words[0], location, start), words[1..], location, start + 1)
  }

  /** After `add(words, location, start)`, word `words[i]` sits at position `start + i`, and nothing else is new. */
  lemma {:induction false} AddWordsPositions(idx: Index, words: seq<string>, location: string, start: int)
    ensures var r := AddWords(idx, words, location, start);
      forall w, l, p :: HasPosition(r, w, l, p) <==>
        HasPosition(idx, w, l, p) || (l == location && start <= p < start + |words| && w == words[p - start])
    decreases |words|
  {
    if |words| > 0 {
      var next := Add(idx, words[0], location, start);
      AddWordsPositions(next, words[1..], location, start + 1);
    }
  }

  /** `add(words, location, start)` adds exactly the given words as keys. */
  lemma {:induction false} AddWordsTerms(idx: Index, words: seq<string>, location: string, start: int)
    ensures forall w :: w in AddWords(idx, words, location, start).terms <==> w in idx.terms || w in words
    decreases |words|
  {
    if |words| > 0 {
      AddWordsTerms(Add(idx, words[0], location, start), words[1..], location, start + 1);
      assert forall w :: w in words <==> w == words[0] || w in words[1..];
    }
  }

  /**
   * `add(words, location, start)` raises the count of `location` to at least
   * the last position used and leaves every other location's count alone.
   */
  lemma {:induction false} AddWordsCounts(idx: Index, words: seq<string>, location: string, start: int)
    ensures var r := AddWords(idx, words, location, start);
      && (forall l :: l != location ==> (l in r.wordCounts <==> l in idx.wordCounts))
      && (forall l :: l in idx.wordCounts && l != location ==> r.wordCounts[l] == idx.wordCounts[l])
      && (|words| == 0 ==> r == idx)
      && (|words| > 0 ==> location in r.wordCounts)
      && (|words| > 0 && Counted(idx, location) ==>
            r.wordCounts[location] == Max(idx.wordCounts[location], start + |words| - 1))
      && (|words| > 0 && !Counted(idx, location) ==> r.wordCounts[location] == start + |words| - 1)
    decreases |words|
  {
    if |words| > 0 {
      AddWordsCounts(Add(idx, words[0], location, start), words[1..], location, start + 1);
    }
  }

  lemma {:induction false} AddWordsValid(idx: Index, words: seq<string>, location: string, start: int)
    requires Valid(idx) && start >= 1
    ensures Valid(AddWords(idx, words, location, start))
    decreases |words|
  {
    if |words| > 0 {
      AddValid(idx, words[0], location, start);
      AddWordsValid(Add(idx, words[0], location, start), words[1..], location, start + 1);
    }
  }

  /**
   * `add(words, location, start)` is the in-order sequence of single adds:
   * one more word adds exactly that word at the next position.
   */
  lemma {:induction false} AddWordsSnoc(idx: Index, words: seq<string>, word: string, location: string, start: int)
    ensures AddWords(idx, words + [word], location, start) == Add(AddWords(idx, words, location, start), word, location, start + |words|)
    decreases |words|
  {
    if |words| == 0 {
      assert AddWords(Add(idx, word, location, start), [], location, start + 1) == Add(idx, word, location, start);
    } else {
      assert (words + [word])[1..] == words[1..] + [word];
      AddWordsSnoc(Add(idx, words[0], location, start), words[1..], word, location, start + 1);
    }
  }

  /** Union of two location -> positions maps. */
  function MergeLocations(a: map<string, set<int>>, b: map<string, set<int>>): (r: map<string, set<int>>)
    ensures r.Keys == a.Keys + b.Keys
    ensures forall l, p :: l in r && p in r[l] <==> (l in a && p in a[l]) || (l in b && p in b[l])
  {
    map l | l in a.Keys + b.Keys :: (if l in a then a[l] else {}) + (if l in b then b[l] else {})
  }

  /** `addAll(local)`: merges `local` into `idx`. */
  function AddAll(idx: Index, local: Index): (r: Index)
    ensures forall w, l, p :: HasPosition(r, w, l, p) <==> HasPosition(idx, w, l, p) || HasPosition(local, w, l, p)
    ensures forall w, l :: HasLocation(r, w, l) <==> HasLocation(idx, w, l) || HasLocation(local, w, l)
    ensures r.terms.Keys == idx.terms.Keys + local.terms.Keys
    ensures r.wordCounts.Keys == idx.wordCounts.Keys + local.wordCounts.Keys
    ensures forall l :: l in idx.wordCounts ==> r.wordCounts[l] >= idx.wordCounts[l]
    ensures forall l :: l in local.wordCounts ==> r.wordCounts[l] >= local.wordCounts[l]
    ensures forall l :: l in r.wordCounts ==>
              (l in idx.wordCounts && r.wordCounts[l] == idx.wordCounts[l]) ||
              (l in local.wordCounts && r.wordCounts[l] == local.wordCounts[l])
  {
    var terms := map w | w in idx.terms.Keys + local.terms.Keys ::
      if w !in local.terms then idx.terms[w]
      else if w !in idx.terms then local.terms[w]
      else MergeLocations(idx.terms[w], local.terms[w]);
    var counts := map l | l in idx.wordCounts.Keys + local.wordCounts.Keys ::
      if l !in local.wordCounts then idx.wordCounts[l]
      else if l !in idx.wordCounts then local.wordCounts[l]
      else Max(idx.wordCounts[l], local.wordCounts[l]);
    Index(terms, counts)
  }

  lemma AddAllValid(idx: Index, local: Index)
    requires Valid(idx) && Valid(local)
    ensures Valid(AddAll(idx, local))
  {
    AddAllWordsKept(idx, local);
    AddAllPairsKept(idx, local);
  }

  /** Every word of the merge has a location. */
  lemma AddAllWordsKept(idx: Index, local: Index)
    requires Valid(idx) && Valid(local)
    ensures forall w :: w in AddAll(idx, local).terms ==> AddAll(idx, local).terms[w] != map[]
  {
    var r := AddAll(idx, local);
    forall w | w in r.terms
      ensures r.terms[w] != map[]
    {
      if w in idx.terms {
        var l :| l in idx.terms[w];
        assert HasLocation(r, w, l);
      } else {
        var l :| l in local.terms[w];
        assert HasLocation(r, w, l);
      }
    }
  }

  /** Every (word, location) pair of the merge has a position. */
  lemma AddAllPairsKept(idx: Index, local: Index)
    requires Valid(idx) && Valid(local)
    ensures forall w, l :: HasLocation(AddAll(idx, local), w, l) ==> AddAll(idx, local).terms[w][l] != {}
  {
    var r := AddAll(idx, local);
    forall w, l | HasLocation(r, w, l)
      ensures r.terms[w][l] != {}
    {
      if HasLocation(idx, w, l) {
        var p := PositionOf(idx, w, l);
        assert HasPosition(r, w, l, p);
      } else {
        var p := PositionOf(local, w, l);
        assert HasPosition(r, w, l, p);
      }
    }
  }

  /** Some position of an indexed (word, location) pair of a valid index. */
  lemma PositionOf(idx: Index, w: string, l: string) returns (p: int)
    requires Valid(idx) && HasLocation(idx, w, l)
    ensures HasPosition(idx, w, l, p)
  {
    var s := idx.terms[w][l];
    if forall x :: x !in s { assert false; }
    p :| p in s;
  }

  /** Two indexes with the same words, pairs, triples and counts are the same index. */
  lemma IndexExtensionality(x: Index, y: Index)
    requires x.terms.Keys == y.terms.Keys
    requires forall w, l :: HasLocation(x, w, l) <==> HasLocation(y, w, l)
    requires forall w, l, p :: HasPosition(x, w, l, p) <==> HasPosition(y, w, l, p)
    requires x.wordCounts == y.wordCounts
    ensures x == y
  {
    forall w | w in x.terms
      ensures x.terms[w] == y.terms[w]
    {
      assert x.terms[w].Keys == y.terms[w].Keys by {
        forall l ensures l in x.terms[w] <==> l in y.terms[w] {
          assert HasLocation(x, w, l) <==> HasLocation(y, w, l);
        }
      }
      forall l | l in x.terms[w]
        ensures x.terms[w][l] == y.terms[w][l]
      {
        forall p ensures p in x.terms[w][l] <==> p in y.terms[w][l] {
          assert HasPosition(x, w, l, p) <==> HasPosition(y, w, l, p);
        }
      }
    }
  }

  /** `add` raises the number of distinct words by one exactly when the word is new. */
  lemma AddTotalWords(idx: Index, word: string, location: string, position: int)
    ensures GetTotalWords(Add(idx, word, location, position)) ==
              GetTotalWords(idx) + (if HasWord(idx, word) then 0 else 1)
  {
    AddFrame(idx, word, location, position);
    var keys := idx.terms.Keys;
    if word in keys {
      assert keys + {word} == keys;
    } else {
      assert |keys + {word}| == |keys| + 1;
    }
  }

  /** `add` makes exactly one (word, location) pair present that may not have been. */
  lemma AddLocations(idx: Index, word: string, location: string, position: int)
    ensures var r := Add(idx, word, location, position);
      forall w, l :: HasLocation(r, w, l) <==> HasLocation(idx, w, l) || (w == word && l == location)
  {
    AddFrame(idx, word, location, position);
  }

  /** Merging the same index in twice changes nothing the first merge did not. */
  lemma AddAllIdempotent(idx: Index, local: Index)
    ensures AddAll(AddAll(idx, local), local) == AddAll(idx, local)
  {
    var once := AddAll(idx, local);
    var twice := AddAll(once, local);
    assert twice.wordCounts == once.wordCounts by {
      forall l | l in once.wordCounts
        ensures twice.wordCounts[l] == once.wordCounts[l]
      {
        if l in local.wordCounts { assert once.wordCounts[l] >= local.wordCounts[l]; }
      }
    }
    IndexExtensionality(twice, once);
  }

  /** The order in which two indexes are merged does not matter. */
  lemma AddAllCommutative(a: Index, b: Index)
    ensures AddAll(a, b) == AddAll(b, a)
  {
    var x, y := AddAll(a, b), AddAll(b, a);
    assert x.wordCounts == y.wordCounts by {
      forall l | l in x.wordCounts
        ensures x.wordCounts[l] == y.wordCounts[l]
      {
      }
    }
    IndexExtensionality(x, y);
  }

  /** Merging a one-word index is the same as adding that word directly. */
  lemma AddAllAdd(idx: Index, local: Index, word: string, location: string, position: int)
    ensures AddAll(idx, Add(local, word, location, position)) == Add(AddAll(idx, local), word, location, position)
  {
    var x := AddAll(idx, Add(local, word, location, position));
    var y := Add(AddAll(idx, local), word, location, position);
    AddAllAddTerms(idx, local, word, location, position);
    AddAllAddCounts(idx, local, word, location, position);
    IndexExtensionality(x, y);
  }

  lemma AddAllAddTerms(idx: Index, local: Index, word: string, location: string, position: int)
    ensures var x := AddAll(idx, Add(local, word, location, position));
      var y := Add(AddAll(idx, local), word, location, position);
      && x.terms.Keys == y.terms.Keys
      && (forall w, l :: HasLocation(x, w, l) <==> HasLocation(y, w, l))
      && (forall w, l, p :: HasPosition(x, w, l, p) <==> HasPosition(y, w, l, p))
  {
    AddLocations(local, word, location, position);
    AddLocations(AddAll(idx, local), word, location, position);
    AddFrame(local, word, location, position);
    AddFrame(AddAll(idx, local), word, location, position);
  }

  lemma AddAllAddCounts(idx: Index, local: Index, word: string, location: string, position: int)
    ensures AddAll(idx, Add(local, word, location, position)).wordCounts
         == Add(AddAll(idx, local), word, location, position).wordCounts
  {
    var x := AddAll(idx, Add(local, word, location, position)).wordCounts;
    var y := Add(AddAll(idx, local), word, location, position).wordCounts;
    forall l | l in x
      ensures x[l] == y[l]
    {
    }
  }

  /** Merging into an empty index yields the merged index itself. */
  lemma AddAllIntoEmpty(local: Index)
    ensures AddAll(Empty(), local) == local
  {
    IndexExtensionality(AddAll(Empty(), local), local);
  }

  /**
   * Build locally, then merge: adding a document's words to a fresh index and
   * merging that into `idx` gives the same index as adding them to `idx`.
   */
  lemma {:induction false} AddAllAddWords(idx: Index, local: Index, words: seq<string>, location: string, start: int)
    ensures AddAll(idx, AddWords(local, words, location, start)) == AddWords(AddAll(idx, local), words, location, start)
    decreases |words|
  {
    if |words| > 0 {
      AddAllAdd(idx, local, words[0], location, start);
      AddAllAddWords(idx, Add(local, words[0], location, start), words[1..], location, start + 1);
    }
  }

  /** The special case used by the crawler and the multithreaded builder: a fresh local index. */
  lemma MergeLocalDocument(idx: Index, words: seq<string>, location: string, start: int)
    ensures AddAll(idx, AddWords(Empty(), words, location, start)) == AddWords(idx, words, location, start)
  {
    AddAllAddWords(idx, Empty(), words, location, start);
    AddAllCommutative(idx, Empty());
    AddAllIntoEmpty(idx);
  }
}
