/**
 * The web crawler: a set of claimed URLs bounded by a limit, a task per
 * claimed URL, and each fetched page indexed into a local index that is
 * then merged into the shared one. The work queue is run by one worker in
 * submission order; fetching, HTML cleaning, stemming and link extraction
 * are a parameter that maps a URL to its page, if it can be fetched.
 */
module Crawler {
  import opened Wrappers
  import opened Text
  import opened InvertedIndex

  /** A fetched page: its stemmed tokens and the links it lists, in order. */
  datatype Page = Page(tokens: seq<string>, links: seq<string>)

  function Elements(s: seq<string>): set<string> {
    set x | x in s
  }

  function Min(a: int, b: int): int {
    if a < b then a else b
  }

  /**
   * The links of a page not yet in `visited`, first occurrences only, in
   * page order.
   */
  function Fresh(links: seq<string>, visited: set<string>): (r: seq<string>)
    ensures Distinct(r)
    ensures forall x :: x in r <==> x in links && x !in visited
    decreases |links|
  {
    if |links| == 0 then []
    else if links[0] in visited then Fresh(links[1..], visited)
    else
      var rest := Fresh(links[1..], visited + {links[0]});
      assert forall x :: x in links <==> x == links[0] || x in links[1..];
      [links[0]] + rest
  }

  /**
   * The claims the link loop makes from `visited` on, before the early
   * return at the limit: each new link is inserted into the set and
   * submitted.
   */
  function ClaimFrom(visited: set<string>, links: seq<string>, limit: int): seq<string>
    decreases |links|
  {
    if |links| == 0 || |visited| == limit then []
    else if links[0] in visited then ClaimFrom(visited, links[1..], limit)
    else [links[0]] + ClaimFrom(visited + {links[0]}, links[1..], limit)
  }

  /**
   * The loop claims the first `limit - |visited|` fresh links of the page,
   * or all of them if there are fewer.
   */
  lemma {:induction false} ClaimIsFreshPrefix(visited: set<string>, links: seq<string>, limit: int)
    requires |visited| <= limit
    ensures ClaimFrom(visited, links, limit) == Fresh(links, visited)[..Min(limit - |visited|, |Fresh(links, visited)|)]
    decreases |links|
  {
    if |links| > 0 && |visited| < limit {
      if links[0] in visited {
        ClaimIsFreshPrefix(visited, links[1..], limit);
      } else {
        ClaimIsFreshPrefix(visited + {links[0]}, links[1..], limit);
      }
    }
  }

  /**
   * From a set within the limit, the claims are new, distinct links of the
   * page; the set stays within the limit; and either every link ends up in
   * the set or the set is full.
   */
  lemma ClaimFacts(visited: set<string>, links: seq<string>, limit: int)
    requires |visited| <= limit
    ensures var c := ClaimFrom(visited, links, limit);
      && Distinct(c)
      && (forall x :: x in c ==> x in links && x !in visited)
      && |visited + Elements(c)| == |visited| + |c| <= limit
      && ((forall l :: l in links ==> l in visited + Elements(c)) || |visited| + |c| == limit)
  {
    ClaimFresh(visited, links, limit);
    ClaimCovers(visited, links, limit);
  }

  /** The claimed links are new, distinct links of the page, and they fit under the limit. */
  lemma {:induction false} ClaimFresh(visited: set<string>, links: seq<string>, limit: int)
    requires |visited| <= limit
    ensures var c := ClaimFrom(visited, links, limit);
      && Distinct(c)
      && (forall x :: x in c ==> x in links && x !in visited)
      && |visited + Elements(c)| == |visited| + |c| <= limit
    decreases |links|
  {
    var c := ClaimFrom(visited, links, limit);
    if |links| > 0 && |visited| < limit {
      var l0 := links[0];
      assert forall x :: x in links[1..] ==> x in links;
      if l0 in visited {
        ClaimFresh(visited, links[1..], limit);
      } else {
        var v1 := visited + {l0};
        var rest := ClaimFrom(v1, links[1..], limit);
        ClaimFresh(v1, links[1..], limit);
        assert c == [l0] + rest;
        assert l0 !in rest;
        DistinctCons(l0, rest);
        ElementsCons(l0, rest);
        assert visited + Elements(c) == v1 + Elements(rest);
      }
    } else {
      assert Elements(c) == {};
    }
  }

  /** Every link of the page ends up in the set, unless the set has reached the limit. */
  lemma {:induction false} ClaimCovers(visited: set<string>, links: seq<string>, limit: int)
    requires |visited| <= limit
    ensures var c := ClaimFrom(visited, links, limit);
      (forall l :: l in links ==> l in visited + Elements(c)) || |visited| + |c| == limit
    decreases |links|
  {
    var c := ClaimFrom(visited, links, limit);
    if |links| > 0 && |visited| < limit {
      var l0 := links[0];
      assert forall x :: x in links ==> x == l0 || x in links[1..];
      if l0 in visited {
        ClaimCovers(visited, links[1..], limit);
      } else {
        var v1 := visited + {l0};
        var rest := ClaimFrom(v1, links[1..], limit);
        ClaimCovers(v1, links[1..], limit);
        assert c == [l0] + rest;
        ElementsCons(l0, rest);
        assert visited + Elements(c) == v1 + Elements(rest);
      }
    }
  }

  /**
   * The link loop of `Task.run`: links are examined only if the set is below
   * the limit on entry; the loop returns as soon as the set reaches the
   * limit; a link not yet in the set is inserted and a task submitted for it.
   */
  method ClaimLinks(visited: set<string>, submitted: seq<string>, links: seq<string>, limit: int)
    returns (v: set<string>, s: seq<string>)
    ensures var c := if |visited| < limit then ClaimFrom(visited, links, limit) else [];
      s == submitted + c && v == visited + Elements(c)
  {
    v, s := visited, submitted;
    if |visited| < limit {
      ghost var all := ClaimFrom(visited, links, limit);
      var i := 0;
      while i < |links|
        invariant 0 <= i <= |links|
        invariant s + ClaimFrom(v, links[i..], limit) == submitted + all
        invariant v + Elements(ClaimFrom(v, links[i..], limit)) == visited + Elements(all)
      {
        if |v| == limit {
          ClaimStop(v, links[i..], limit);
          return;
        }
        var url := links[i];
        ClaimStep(v, links[i..], limit);
        assert links[i..][1..] == links[i + 1..];
        ElementsCons(url, ClaimFrom(v + {url}, links[i + 1..], limit));
        if url !in v {
          v := v + {url};
          s := s + [url];
        }
        i := i + 1;
      }
      ClaimStop(v, links[i..], limit);
    }
  }

  /** Nothing more is claimed once the set is full or the links run out. */
  lemma ClaimStop(visited: set<string>, links: seq<string>, limit: int)
    requires |links| == 0 || |visited| == limit
    ensures ClaimFrom(visited, links, limit) == []
    ensures Elements(ClaimFrom(visited, links, limit)) == {}
  {
  }

  /** One turn of the link loop below the limit, on the links not yet examined. */
  lemma ClaimStep(visited: set<string>, tail: seq<string>, limit: int)
    requires |tail| > 0 && |visited| != limit
    ensures tail[0] in visited ==> ClaimFrom(visited, tail, limit) == ClaimFrom(visited, tail[1..], limit)
    ensures tail[0] !in visited ==>
              ClaimFrom(visited, tail, limit) == [tail[0]] + ClaimFrom(visited + {tail[0]}, tail[1..], limit)
  {
  }

  /** A new element in front keeps a sequence free of repeats. */
  lemma DistinctCons(x: string, rest: seq<string>)
    requires Distinct(rest) && x !in rest
    ensures Distinct([x] + rest)
  {
    var c := [x] + rest;
    forall i, j | 0 <= i < j < |c| ensures c[i] != c[j] {
      assert c[j] == rest[j - 1];
      if i > 0 {
        assert c[i] == rest[i - 1];
      }
    }
  }

  /** The elements of a sequence with one more element in front. */
  lemma ElementsCons(x: string, rest: seq<string>)
    ensures Elements([x] + rest) == {x} + Elements(rest)
  {
    assert forall y :: y in [x] + rest <==> y == x || y in rest;
  }

  /**
   * Static `addToIndex(seed, html, index)`: the counter starts at 1 and
   * each token is added under the URL at the current count.
   */
  method AddPage(idx: Index, url: string, tokens: seq<string>) returns (r: Index)
    ensures r == AddWords(idx, tokens, url, 1)
  {
    r := idx;
    var position := 1;
    var i := 0;
    while i < |tokens|
      invariant 0 <= i <= |tokens|
      invariant position == i + 1
      invariant r == AddWords(idx, tokens[..i], url, 1)
    {
      AddWordsSnoc(idx, tokens[..i], tokens[i], url, 1);
      assert tokens[..i] + [tokens[i]] == tokens[..i + 1];
      r := Add(r, tokens[i], url, position);
      position := position + 1;
      i := i + 1;
    }
    assert tokens[..i] == tokens;
  }

  /**
   * The indexing half of `Task.run`: a page that cannot be fetched adds
   * nothing; otherwise it is indexed into a fresh local index, which is
   * merged into the shared one, with the same effect as adding it directly.
   */
  method IndexPage(idx: Index, url: string, page: Option<Page>) returns (r: Index)
    ensures page.None? ==> r == idx
    ensures page.Some? ==> r == AddWords(idx, page.value.tokens, url, 1)
  {
    if page.None? {
      return idx;
    }
    var local := AddPage(Empty(), url, page.value.tokens);
    r := AddAll(idx, local);
    MergeLocalDocument(idx, page.value.tokens, url, 1);
  }

  /** The index after the pages of `urls` are processed in order. */
  function IndexAll(idx: Index, urls: seq<string>, fetch: string -> Option<Page>): Index
    decreases |urls|
  {
    if |urls| == 0 then idx
    else
      var previous := IndexAll(idx, urls[..|urls| - 1], fetch);
      var url := urls[|urls| - 1];
      match fetch(url)
      case None => previous
      case Some(page) => AddWords(previous, page.tokens, url, 1)
  }

  lemma {:induction false} DistinctElements(s: seq<string>)
    requires Distinct(s)
    ensures |Elements(s)| == |s|
    decreases |s|
  {
    if |s| > 0 {
      var init := s[..|s| - 1];
      DistinctElements(init);
      assert Elements(s) == Elements(init) + {s[|s| - 1]};
      assert s[|s| - 1] !in Elements(init);
    }
  }

  /**
   * The crawler's bookkeeping: a task was submitted for every claimed URL,
   * exactly once, and no more URLs are claimed than the limit allows (the
   * seed is claimed whatever the limit).
   */
  ghost predicate Frontier(visited: set<string>, submitted: seq<string>, limit: int) {
    && |submitted| > 0
    && Distinct(submitted)
    && visited == Elements(submitted)
    && |visited| == |submitted| <= Max(limit, 1)
  }

  /** The links of every page processed so far are claimed, unless the set is full. */
  ghost predicate Covered(visited: set<string>, submitted: seq<string>, n: int, limit: int, fetch: string -> Option<Page>)
    requires 0 <= n <= |submitted|
  {
    forall k :: 0 <= k < n && fetch(submitted[k]).Some? ==>
      (forall l :: l in fetch(submitted[k]).value.links ==> l in visited) || |visited| >= limit
  }

  /**
   * Processing one page's links keeps the bookkeeping, only appends tasks,
   * only grows the set, and leaves every link of the page claimed unless the
   * set is full.
   */
  lemma ClaimKeepsFrontier(visited: set<string>, submitted: seq<string>, links: seq<string>, limit: int)
    requires Frontier(visited, submitted, limit)
    ensures var c := if |visited| < limit then ClaimFrom(visited, links, limit) else [];
      var v, s := visited + Elements(c), submitted + c;
      && Frontier(v, s, limit)
      && s[..|submitted|] == submitted
      && visited <= v && |visited| <= |v|
      && ((forall l :: l in links ==> l in v) || |v| >= limit)
  {
    var c := if |visited| < limit then ClaimFrom(visited, links, limit) else [];
    var v, s := visited + Elements(c), submitted + c;
    if |visited| < limit {
      ClaimFacts(visited, links, limit);
    } else {
      assert Elements(c) == {};
    }
    assert Elements(s) == Elements(submitted) + Elements(c);
    forall i, j | 0 <= i < j < |s| ensures s[i] != s[j] {
      if j >= |submitted| && i < |submitted| {
        assert s[j] in c && s[i] in Elements(submitted);
      } else if i >= |submitted| {
        assert s[i] == c[i - |submitted|] && s[j] == c[j - |submitted|];
      }
    }
    DistinctElements(s);
  }

  /** The page just processed joins the covered ones; a growing set keeps earlier pages covered. */
  lemma CoveredStep(visited: set<string>, submitted: seq<string>, v: set<string>, s: seq<string>,
                    next: int, limit: int, fetch: string -> Option<Page>)
    requires 0 <= next < |submitted| && next < |s| && s[..next + 1] == submitted[..next + 1]
    requires Covered(visited, submitted, next, limit, fetch)
    requires visited <= v && |visited| <= |v|
    requires fetch(s[next]).Some? ==> (forall l :: l in fetch(s[next]).value.links ==> l in v) || |v| >= limit
    ensures Covered(v, s, next + 1, limit, fetch)
  {
    forall k | 0 <= k < next + 1 && fetch(s[k]).Some?
      ensures (forall l :: l in fetch(s[k]).value.links ==> l in v) || |v| >= limit
    {
      assert s[k] == s[..next + 1][k] == submitted[..next + 1][k] == submitted[k];
    }
  }

  /** Processing one more task extends the index by that task's page, if it was fetched. */
  lemma IndexAllStep(idx: Index, urls: seq<string>, n: int, fetch: string -> Option<Page>)
    requires 0 <= n < |urls|
    ensures fetch(urls[n]).None? ==> IndexAll(idx, urls[..n + 1], fetch) == IndexAll(idx, urls[..n], fetch)
    ensures fetch(urls[n]).Some? ==>
              IndexAll(idx, urls[..n + 1], fetch) == AddWords(IndexAll(idx, urls[..n], fetch), fetch(urls[n]).value.tokens, urls[n], 1)
  {
    assert urls[..n + 1][..n] == urls[..n];
  }

  /** The link loop of a fetched page, stated as the bookkeeping `Task.run` relies on. */
  method ClaimPage(visited: set<string>, submitted: seq<string>, links: seq<string>, limit: int)
    returns (v: set<string>, s: seq<string>)
    requires Frontier(visited, submitted, limit)
    ensures Frontier(v, s, limit) && |submitted| <= |s| && s[..|submitted|] == submitted
    ensures visited <= v && |visited| <= |v|
    ensures (forall l :: l in links ==> l in v) || |v| >= limit
  {
    ClaimKeepsFrontier(visited, submitted, links, limit);
    v, s := ClaimLinks(visited, submitted, links, limit);
  }

  /** The result of a crawl: the claimed URLs, the order their tasks were submitted, the index. */
  datatype Crawl = Crawl(visited: set<string>, submitted: seq<string>, index: Index)

  /** The index after a task, whatever it appended to the queue, is the index of the tasks run so far. */
  lemma TaskIndexed(idx: Index, submitted: seq<string>, s: seq<string>, next: int,
                    fetch: string -> Option<Page>, ix: Index)
    requires 0 <= next < |submitted| && next < |s| && s[..next + 1] == submitted[..next + 1]
    requires fetch(submitted[next]).None? ==> ix == IndexAll(idx, submitted[..next], fetch)
    requires fetch(submitted[next]).Some? ==>
               ix == AddWords(IndexAll(idx, submitted[..next], fetch), fetch(submitted[next]).value.tokens, submitted[next], 1)
    ensures ix == IndexAll(idx, s[..next + 1], fetch)
  {
    IndexAllStep(idx, submitted, next, fetch);
  }

  /**
   * `Task.run` for the task at position `next`: fetch the page, index it
   * through a local index, and, if it was fetched, claim its links.
   */
  method RunTask(idx: Index, visited: set<string>, submitted: seq<string>, index: Index, next: int,
                 limit: int, fetch: string -> Option<Page>)
    returns (v: set<string>, s: seq<string>, ix: Index)
    requires 0 <= next < |submitted| && Frontier(visited, submitted, limit)
    requires index == IndexAll(idx, submitted[..next], fetch)
    requires Covered(visited, submitted, next, limit, fetch)
    ensures Frontier(v, s, limit) && next < |s| && s[..next + 1] == submitted[..next + 1]
    ensures ix == IndexAll(idx, s[..next + 1], fetch)
    ensures Covered(v, s, next + 1, limit, fetch)
  {
    var url := submitted[next];
    var page := fetch(url);
    ix := IndexPage(index, url, page);
    if page.Some? {
      v, s := ClaimPage(visited, submitted, page.value.links, limit);
      assert s[..next + 1] == s[..|submitted|][..next + 1];
    } else {
      v, s := visited, submitted;
    }
    TaskIndexed(idx, submitted, s, next, fetch, ix);
    CoveredStep(visited, submitted, v, s, next, limit, fetch);
  }

  /**
   * `build(seed, limit)` with one worker: the seed is claimed and its task
   * submitted; tasks then run in submission order until none is left.
   */
  method Build(idx: Index, seed: string, limit: int, fetch: string -> Option<Page>) returns (r: Crawl)
    ensures |r.submitted| > 0 && r.submitted[0] == seed
    ensures Distinct(r.submitted) && r.visited == Elements(r.submitted)
    ensures |r.visited| <= Max(limit, 1)
    ensures r.index == IndexAll(idx, r.submitted, fetch)
    ensures forall k :: 0 <= k < |r.submitted| && fetch(r.submitted[k]).Some? ==>
              (forall l :: l in fetch(r.submitted[k]).value.links ==> l in r.visited) || |r.visited| >= limit
  {
    var visited := {seed};
    var submitted := [seed];
    var index := idx;
    var next := 0;
    DistinctElements(submitted);
    while next < |submitted|
      invariant 0 <= next <= |submitted| && Frontier(visited, submitted, limit) && submitted[0] == seed
      invariant index == IndexAll(idx, submitted[..next], fetch)
      invariant Covered(visited, submitted, next, limit, fetch)
      decreases Max(limit, 1) - next
    {
      ghost var before := submitted;
      visited, submitted, index := RunTask(idx, visited, submitted, index, next, limit, fetch);
      assert submitted[0] == submitted[..next + 1][0] == before[..next + 1][0];
      next := next + 1;
    }
    assert submitted[..next] == submitted;
    r := Crawl(visited, submitted, index);
  }
}
