# SearchEngine core in Dafny

A functional model of the core of a small Java search engine. It builds an
inverted index from text files or crawled web pages, answers exact and prefix
(partial) queries with ranked results, memoises query lines, parses
command-line flags, and writes the index as tab-indented JSON. Every Java
object is modelled as an immutable value and every mutating call as a
function from the old value to the new one. Loops that the proofs care
about are kept as `method`s with loop invariants, and each such method is
proved equal to a reference definition.

Modules, one per file:

- `Wrappers` (`wrappers.dfy`): `Option`, which stands for Java `null`.
- `Text` (`text.dfy`): `startsWith`/`endsWith`, ASCII `toLowerCase`, `String.join` and `Integer.toString`. This module also proves that joining and decimal rendering can be undone.
- `StringOrder` (`string_order.dfy`): `String.compareTo` as a strict total order on UTF-16 code units, proved equal to the lexicographic order of the strings' UTF-16 encodings; the iteration order of `TreeSet<String>` and `TreeSet<Integer>`; and the sign of `compareToIgnoreCase`.
- `InvertedIndex` (`inverted_index.dfy`): the `index` and `wordCounts` maps, `add`, `add(words, …)`, `addAll` and the read accessors.
- `ResultOrder` (`result_order.dfy`): `InvertedIndex.Result`, its `compareTo`, and the stable sort behind `Collections.sort`.
- `Search` (`search.dfy`): `searchHelper`, `exactSearch`, `partialSearch` and `search`.
- `Arguments` (`argument_parser.dfy`): `ArgumentParser`.
- `Queries` (`query_parser.dfy`): `QueryParser.parseLine`.
- `Builder` (`index_builder.dfy`): `IndexBuilder`, including the directory walk and the indexing of one file.
- `Crawler` (`web_crawler.dfy`): `WebCrawler`, with the task queue run by one worker in submission order.
- `JsonWriter` (`json_writer.dfy`): `SimpleJsonWriter` without `searchJSON`. A `Writer` is the string it has accumulated so far.

Parameters stand in for the parts that are not modelled:

- The stemmer and tokenizer are a function `uniqueStems: string -> set<string>` for query lines.
- A file is its lines of already-stemmed tokens.
- The web is a function `fetch: string -> Option<Page>`, where a page is its stemmed tokens and its links.
- A directory tree is a `Path` value.

## Model

| member | source | states |
|---|---|---|
| InvertedIndex.GetPositions | Project/src/InvertedIndex.java:205-208 | the positions are exactly those recorded for the pair; the set is empty when the word or the location is absent |
| InvertedIndex.GetLocations | Project/src/InvertedIndex.java:177-179 | exactly the locations where the word is indexed; empty for an unknown word |
| InvertedIndex.GetWordCount | Project/src/InvertedIndex.java:122-124 | a count exists exactly for counted locations (`None` where the Java unboxing throws) and is the stored count |
| InvertedIndex.GetWords | Project/src/InvertedIndex.java:140-142 | exactly the indexed words |
| InvertedIndex.GetAllLocations | Project/src/InvertedIndex.java:100-102 | exactly the locations that have a word count |
| InvertedIndex.GetTotalWords | Project/src/InvertedIndex.java:215-217 | the number of distinct indexed words, not the number of occurrences |
| InvertedIndex.AddTotalWords | Project/src/InvertedIndex.java:215-217 | `add` raises the distinct-word total by one exactly when the word is new |
| InvertedIndex.Add | Project/src/InvertedIndex.java:42-55 | adds exactly one (word, location, position) triple; the location's count becomes the larger of the old count and the position, or the position when the location is new; other counts are unchanged |
| InvertedIndex.AddFrame | Project/src/InvertedIndex.java:42-46 | `add` touches only the entry for its word and location |
| InvertedIndex.AddLocations | Project/src/InvertedIndex.java:44-45 | `add` makes at most one new (word, location) pair present, namely its own |
| InvertedIndex.AddValid | Project/src/InvertedIndex.java:42-55 | with a position of at least 1, `add` preserves the index invariant: no empty inner map or set, every indexed location is counted, and every count bounds its positions |
| InvertedIndex.AddWords | Project/src/InvertedIndex.java:64-71 | `add(words, location, start)`: single adds of the words in order at positions `start`, `start + 1`, … |
| InvertedIndex.AddWordsPositions | Project/src/InvertedIndex.java:64-71 | after `add(words, location, start)`, `words[i]` sits at position `start + i` and nothing else is new |
| InvertedIndex.AddWordsTerms | Project/src/InvertedIndex.java:64-71 | the words added as keys are exactly the given words |
| InvertedIndex.AddWordsCounts | Project/src/InvertedIndex.java:64-71 | the location's count reaches at least the last position used, and other locations are untouched; an empty word list changes nothing |
| InvertedIndex.AddWordsValid | Project/src/InvertedIndex.java:64-71 | adding words from a start of at least 1 preserves the index invariant |
| InvertedIndex.AddWordsSnoc | Project/src/InvertedIndex.java:66-70 | the loop is the in-order sequence of single adds at consecutive positions |
| InvertedIndex.MergeLocations | Project/src/InvertedIndex.java:292-302 | merging two location maps unions the keys and the position sets |
| InvertedIndex.AddAll | Project/src/InvertedIndex.java:286-325 | the merge holds exactly the triples and pairs of both indexes; each count is the larger of the two counts, or the only one there is |
| InvertedIndex.AddAllValid | Project/src/InvertedIndex.java:286-325 | merging two valid indexes gives a valid index |
| InvertedIndex.AddAllIdempotent | Project/src/InvertedIndex.java:286-325 | merging the same index a second time changes nothing |
| InvertedIndex.AddAllCommutative | Project/src/InvertedIndex.java:286-325 | the order of merging does not matter |
| InvertedIndex.AddAllIntoEmpty | Project/src/InvertedIndex.java:286-325 | merging into an empty index yields the merged index |
| InvertedIndex.AddAllAdd | Project/src/InvertedIndex.java:286-325 | merging after one add equals adding after the merge |
| InvertedIndex.AddAllAddWords | Project/src/InvertedIndex.java:286-325 | building a document locally and then merging equals adding it directly |
| InvertedIndex.MergeLocalDocument | Project/src/InvertedIndex.java:286-325 | a document indexed into a fresh local index and merged in gives the same index as adding its words directly |
| ResultOrder.CrossMultiplication | Project/src/InvertedIndex.java:406-410 | comparing cross products orders results exactly as the rational scores `count / wordCount` |
| ResultOrder.CompareToAntisymmetric | Project/src/InvertedIndex.java:422-442 | `x.compareTo(y)` is the negation of `y.compareTo(x)` |
| ResultOrder.CompareToZero | Project/src/InvertedIndex.java:422-442 | two results compare equal exactly when score, count and case-folded location all agree |
| ResultOrder.BeforeTransitive | Project/src/InvertedIndex.java:422-442 | the result order is transitive |
| ResultOrder.BeforeTotal | Project/src/InvertedIndex.java:422-442 | any two results are ordered one way or the other |
| ResultOrder.Insert | Project/src/InvertedIndex.java:249 | inserting into a sorted list keeps it sorted and adds exactly the new result |
| ResultOrder.CompareTo | Project/src/InvertedIndex.java:422-442 | the sign of `compareTo`: higher score first, then higher count, then location by `compareToIgnoreCase` |
| ResultOrder.Sort | Project/src/InvertedIndex.java:249 | the sorted list is ordered by `compareTo` and is a permutation of its input |
| ResultOrder.Ties | Project/src/InvertedIndex.java:422-442 | the results of a list that compare equal to a given one, in list order |
| ResultOrder.TieTransitive | Project/src/InvertedIndex.java:422-442 | comparing equal is transitive |
| ResultOrder.InsertTies | Project/src/InvertedIndex.java:249 | insertion puts the new result ahead of every result that compares equal to it |
| ResultOrder.SortStable | Project/src/InvertedIndex.java:249 | the sort is stable: results that compare equal keep their input order, as `Collections.sort` guarantees |
| StringOrder.Less | Project/src/InvertedIndex.java:23 | `String.compareTo`, the key order of the index's `TreeMap`: character by character by first UTF-16 code unit, a proper prefix first |
| StringOrder.CodeUnits | Project/src/InvertedIndex.java:23 | the UTF-16 code units of a character: one below U+10000, otherwise a high and then a low surrogate |
| StringOrder.CharLessUnits | Project/src/InvertedIndex.java:23 | comparing two distinct characters decides the comparison of any code-unit sequences that start with their encodings |
| StringOrder.LessIsUtf16Order | Project/src/InvertedIndex.java:23 | the string order is exactly the lexicographic order of the UTF-16 encodings, which is what `String.compareTo` compares |
| StringOrder.SupplementaryOrder | Project/src/InvertedIndex.java:23 | a supplementary character sorts after "z" and before U+FF01, as its high surrogate does |
| StringOrder.CompareIgnoreCase | Project/src/InvertedIndex.java:426 | zero, negative or positive exactly as the case-folded locations are equal, ascending or descending |
| StringOrder.SortedStrings | Project/src/QueryParser.java:52 | a string set listed in strictly ascending `compareTo` order, with each element exactly once |
| StringOrder.PrefixBlock | Project/src/InvertedIndex.java:266-271 | in key order, words starting with a query form one block: a word between the query and a match also matches |
| Search.VisitAllCounts | Project/src/InvertedIndex.java:337-348 | the inner loop of `searchHelper` creates each new location once and adds the word's positions to each location's count |
| Search.SearchHelper | Project/src/InvertedIndex.java:335-349 | after visiting a word, the lookup holds the old locations plus the word's locations, and each count grows by the word's positions there |
| Search.Gather | Project/src/InvertedIndex.java:241-247 | after the query loop, the lookup holds exactly the locations of the visited words; each count is the sum of their positions there |
| Search.GatherPositive | Project/src/InvertedIndex.java:406-410 | on a valid index, every location found has a positive count |
| Search.Collect | Project/src/InvertedIndex.java:238-247 | the unsorted list has one result per location found, with the summed count and the location's word count |
| Search.InsertKeepsDistinct | Project/src/InvertedIndex.java:249 | inserting a result for a new location keeps locations distinct |
| Search.SortKeepsDistinct | Project/src/InvertedIndex.java:249 | sorting keeps locations distinct |
| Search.SortSameElements | Project/src/InvertedIndex.java:249 | sorting keeps exactly the same results |
| Search.SortFound | Project/src/InvertedIndex.java:249 | sorting finds the same locations |
| Search.SortDescribes | Project/src/InvertedIndex.java:249 | sorting keeps each result's count and word count |
| Search.Rank | Project/src/InvertedIndex.java:241-250 | sorted, one result per location, exactly the locations of the words, each with its summed count; results that compare equal keep the order in which their locations were first met |
| Search.IndexedWords | Project/src/InvertedIndex.java:243-246 | the `hasWord` guard visits exactly the queries that are indexed |
| Search.IndexedOccurrences | Project/src/InvertedIndex.java:243-246 | skipping unindexed queries does not change any count |
| Search.ExactSearch | Project/src/InvertedIndex.java:236-251 | sorted; one result per location where some query is indexed, and only those; each count is the queries' positions there; each word count is the location's count; ties keep first-visit order |
| Search.PrefixMatches | Project/src/InvertedIndex.java:266-271 | exactly the index words that start with the query |
| Search.NoPrefixedAfter | Project/src/InvertedIndex.java:268-270 | once a key at or after the query does not start with it, no later key does, so the `break` loses nothing |
| Search.TakeIsFilter | Project/src/InvertedIndex.java:266-271 | walking from the first key at or after the query until the first non-match gives every match |
| Search.TailScanIsFilter | Project/src/InvertedIndex.java:266 | `tailMap(query)` followed by the prefix walk is the filter over all keys |
| Search.ScanIsPrefixMatches | Project/src/InvertedIndex.java:266-274 | the words the partial search visits for one query are its prefix matches, in key order |
| Search.PartialWordsMatch | Project/src/InvertedIndex.java:264-275 | the visited words are exactly the index words that start with some query |
| Search.PartialWordsOccurrences | Project/src/InvertedIndex.java:264-275 | the counts sum, over the queries, the positions of every word starting with that query |
| Search.PartialSearch | Project/src/InvertedIndex.java:259-279 | sorted; one result per location of an index word that starts with some query, and only those; counts as in `PartialWordsOccurrences`; ties keep first-visit order |
| Search.Run | Project/src/InvertedIndex.java:226-228 | sorted, one result per location; the locations found are exactly those of words that answer a query, meaning equal to it in exact mode or prefixed by it otherwise; results that compare equal keep the order in which the visited words first met their locations |
| Search.Visited | Project/src/InvertedIndex.java:226-228 | the words a search visits are index words: the indexed queries in exact mode, the prefixed words otherwise |
| Search.ExactAnswers | Project/src/InvertedIndex.java:227 | exact search finds the locations of words equal to a query |
| Search.PartialAnswers | Project/src/InvertedIndex.java:227 | partial search finds the locations of words prefixed by a query |
| Search.ExactWithinPartial | Project/src/InvertedIndex.java:226-279 | every location an exact search finds, the partial search also finds |
| Arguments.IsFlag | Project/src/ArgumentParser.java:71-73 | `isFlag`: non-null, longer than one character, starting with a dash |
| Arguments.IsValue | Project/src/ArgumentParser.java:71-87 | a value is never a flag; only null, "" and "-" are neither |
| Arguments.NumFlags | Project/src/ArgumentParser.java:94-96 | `numFlags`: the number of distinct flags in the map |
| Arguments.HasFlag | Project/src/ArgumentParser.java:104-106 | `hasFlag`: the flag is a key of the map |
| Arguments.HasValue | Project/src/ArgumentParser.java:114-116 | `hasValue`: the flag is mapped to a non-null value |
| Arguments.GetString | Project/src/ArgumentParser.java:126-128 | `getString(flag)`: the mapped value, null for a missing flag and for a flag without a value |
| Arguments.GetStringOr | Project/src/ArgumentParser.java:140-144 | `getString(flag, default)`: the mapped value when it is non-null, otherwise the default |
| Arguments.OccursExtend | Project/src/ArgumentParser.java:47-58 | arguments skipped as values add no flag occurrence |
| Arguments.ParsedExtend | Project/src/ArgumentParser.java:47-58 | one loop turn, a flag and the value it consumes, extends the description of the parse |
| Arguments.Parse | Project/src/ArgumentParser.java:46-59 | the flags present are the old ones plus every flag given; each flag maps to the value after its last occurrence, or to null; other entries are kept |
| Arguments.LastOccurrence | Project/src/ArgumentParser.java:47-58 | a flag that occurs has a last occurrence |
| Arguments.ParsedDeterministic | Project/src/ArgumentParser.java:46-59 | the description of `parse` determines the map completely |
| Arguments.ParseTwice | Project/src/ArgumentParser.java:46-59 | parsing the same arguments again changes nothing |
| Arguments.FreshNumFlags | Project/src/ArgumentParser.java:94-96 | after parsing into a fresh parser, `numFlags` is the number of distinct flags given |
| Arguments.ParsedFlag | Project/src/ArgumentParser.java:104-144 | a given flag is present; it has a value exactly when a value follows its last occurrence; `getString(flag, default)` returns that value or the default |
| Arguments.ParsedAbsent | Project/src/ArgumentParser.java:104-144 | a name never given is absent, has no value, and `getString` returns the default |
| Queries.QueryKey | Project/src/QueryParser.java:52 | the memo key: the stems in `TreeSet` order joined by single spaces |
| Queries.QueryKeyInjective | Project/src/QueryParser.java:52 | two stem sets get the same key exactly when they are equal |
| Queries.ParseLine | Project/src/QueryParser.java:43-61 | a line without stems changes nothing; otherwise the key is added, old entries are kept, and a new key maps to the search for the stems in key order |
| Queries.ParseLineMemoized | Project/src/QueryParser.java:43-61 | every entry remains the search result for the stems its key spells |
| Queries.SameStemsOnce | Project/src/QueryParser.java:54-57 | a second line with the same stems leaves the table as it was |
| Queries.DifferentStemsTwoEntries | Project/src/QueryParser.java:52-60 | lines with different stem sets get separate entries |
| Builder.IsTextFile | Project/src/IndexBuilder.java:121-127 | `isTextFile`: the lower-cased path ends in ".txt" or ".text" |
| Builder.TextFileSuffix | Project/src/IndexBuilder.java:121-127 | a path is a text file exactly when its last four characters fold to ".txt" or its last five to ".text" |
| Builder.AddFile | Project/src/IndexBuilder.java:84-103 | the counter runs across lines, so the file is added as one word sequence from position 1 |
| Builder.FreshFile | Project/src/IndexBuilder.java:84-103 | a file indexed into an empty index has a word count equal to its number of tokens, and token `i` sits at position `i + 1` |
| Builder.IndexFilesAppend | Project/src/IndexBuilder.java:54-75 | indexing a list of files is indexing its parts one after the other |
| Builder.Traverse | Project/src/IndexBuilder.java:54-75 | the recursive walk indexes the text files of the tree in stream order |
| Builder.TextFilesExactly | Project/src/IndexBuilder.java:54-75 | the walk lists every text file of the tree and nothing else |
| Builder.IndexFilesCounted | Project/src/IndexBuilder.java:54-75 | a location gains a count exactly when it is a listed file with at least one token |
| Builder.TraverseLocations | Project/src/IndexBuilder.java:54-75 | after the walk, the counted locations are the old ones plus the text files of the tree with at least one token |
| Crawler.ClaimFrom | Project/src/WebCrawler.java:115-126 | the links the loop claims: each link not yet in the set is inserted and submitted, until the set reaches the limit |
| Crawler.Fresh | Project/src/WebCrawler.java:113-126 | the page's links not yet claimed, each once, in page order |
| Crawler.ClaimIsFreshPrefix | Project/src/WebCrawler.java:109-128 | the link loop claims the first `limit - claimed` fresh links, or all of them if there are fewer |
| Crawler.ClaimFacts | Project/src/WebCrawler.java:109-128 | the claims are new and distinct, the set stays within the limit, and either every link ends up claimed or the set is full |
| Crawler.ClaimFresh | Project/src/WebCrawler.java:115-126 | each claimed link is a link of the page not claimed before, no link is claimed twice, and the set grows by exactly the claims without passing the limit |
| Crawler.ClaimCovers | Project/src/WebCrawler.java:109-128 | after the loop every link of the page is claimed, unless the set has reached the limit |
| Crawler.ClaimPage | Project/src/WebCrawler.java:109-128 | the link loop of a fetched page only appends tasks, only grows the set, keeps each claimed URL submitted once, and claims every link unless the set is full |
| Crawler.ClaimLinks | Project/src/WebCrawler.java:109-128 | the loop, with its early return at the limit, claims and submits exactly those links |
| Crawler.ClaimStep | Project/src/WebCrawler.java:115-126 | one turn of the link loop below the limit |
| Crawler.AddPage | Project/src/WebCrawler.java:63-73 | a page's tokens are added under its URL from position 1 |
| Crawler.IndexPage | Project/src/WebCrawler.java:99-107 | a page that cannot be fetched adds nothing; otherwise indexing locally and merging equals adding its words directly |
| Crawler.ClaimKeepsFrontier | Project/src/WebCrawler.java:109-128 | processing a page's links keeps each claimed URL submitted exactly once, within the limit |
| Crawler.CoveredStep | Project/src/WebCrawler.java:109-128 | a processed page's links stay claimed unless the set is full |
| Crawler.IndexAll | Project/src/WebCrawler.java:99-107 | the index after the tasks of the given URLs run in order, each fetched page added under its URL from position 1 |
| Crawler.IndexAllStep | Project/src/WebCrawler.java:99-107 | one more task extends the index by that task's page |
| Crawler.RunTask | Project/src/WebCrawler.java:97-135 | one task indexes its page and claims its links, keeping the bookkeeping |
| Crawler.Build | Project/src/WebCrawler.java:49-54 | the seed is submitted first; every claimed URL is submitted exactly once; at most `max(limit, 1)` URLs are claimed; the index holds every fetched claimed page; every fetched page's links are claimed unless the set is full |
| JsonWriter.Tabs | Project/src/SimpleJsonWriter.java:520-525 | exactly `max(times, 0)` characters, all tabs |
| JsonWriter.Indent | Project/src/SimpleJsonWriter.java:520-525 | the writing loop produces that tab run |
| JsonWriter.Quote | Project/src/SimpleJsonWriter.java:566-571 | the element between two double quotes, unchanged |
| JsonWriter.QuoteAddsTwoQuotes | Project/src/SimpleJsonWriter.java:566-571 | nothing is escaped: the quoted text has exactly two more quote characters than the element |
| JsonWriter.WriteStep | Project/src/SimpleJsonWriter.java:45-56 | a newline before the first item and a comma plus newline before each later one give the item-per-line layout |
| JsonWriter.WriteList | Project/src/SimpleJsonWriter.java:41-60 | the writes produce `[`, each integer on its own indented line with commas between, then a newline and the indented `]` |
| JsonWriter.AsArray | Project/src/SimpleJsonWriter.java:41-60 | elements are indented `level + 1` tabs and `]` is indented `level - 1` tabs |
| JsonWriter.EmptyArray | Project/src/SimpleJsonWriter.java:41-60 | an empty collection at level 0 yields `[`, a newline, `]` |
| JsonWriter.ArrayCommas | Project/src/SimpleJsonWriter.java:45-56 | n elements produce exactly n − 1 commas |
| JsonWriter.ListInjective | Project/src/SimpleJsonWriter.java:45-56 | the list text determines the integers and their order |
| JsonWriter.ArrayInjective | Project/src/SimpleJsonWriter.java:41-60 | the array text determines the elements in iteration order |
| JsonWriter.ArrayClosing | Project/src/SimpleJsonWriter.java:41-60 | the `asArray` layout matches the inner array of `writeNestedEntry` only at level 0 or below |
| JsonWriter.WriteEntry | Project/src/SimpleJsonWriter.java:140-144 | an entry is the indented quoted key, `": "`, and the decimal value |
| JsonWriter.AsObject | Project/src/SimpleJsonWriter.java:105-130 | entries one level deeper, separated by `,\n`, closed by `}` at the starting level |
| JsonWriter.EntryNoComma | Project/src/SimpleJsonWriter.java:140-144 | an entry whose key has no comma contains no comma |
| JsonWriter.ObjectCommas | Project/src/SimpleJsonWriter.java:105-130 | with comma-free keys, n entries produce exactly n − 1 commas |
| JsonWriter.WriteNestedEntry | Project/src/SimpleJsonWriter.java:222-245 | the key, then a bracketed array of its integers, each one level deeper, with `]` at the entry's level |
| JsonWriter.NestedEntryInjective | Project/src/SimpleJsonWriter.java:222-245 | for a fixed key, the entry text determines the integers and their order |
| JsonWriter.AsNestedObject | Project/src/SimpleJsonWriter.java:191-212 | nested entries one level deeper, separated by `,\n`, closed by `}` at the starting level |
| JsonWriter.LocationEntries | Project/src/SimpleJsonWriter.java:325-331 | a location map as tree maps iterate it: each location once, in key order, with its positions ascending |
| JsonWriter.WriteIndexEntry | Project/src/SimpleJsonWriter.java:325-354 | the word, then its location map written as `asNestedObject` writes it at the same level |
| JsonWriter.IndexItemAt | Project/src/SimpleJsonWriter.java:294-305 | the i-th entry is the i-th word in key order |
| JsonWriter.WriteIndex | Project/src/SimpleJsonWriter.java:291-315 | one entry per word in key order, one level deeper, with the closing `}` one level shallower than the start |
| JsonWriter.FirstEntryStart | Project/src/SimpleJsonWriter.java:291-354 | the first line after `{` is the first word, quoted at one tab, with its opening brace |

## Left out

- Concurrency is not modelled: `SimpleReadWriteLock`, `ThreadSafeInvertedIndex`, `MultithreadIndexBuilder`, `MultithreadQueryParser` and `WorkQueue`. Their point is locking and a worker pool.
- The crawler runs its task queue with a single worker in submission order. A pool would interleave tasks, and their shared claimed-URL set would then decide which links are claimed.
- The following are parameters, not models:
  - reading files and directories, fetching web pages (`HtmlFetcher`, with its redirect limit of 3), `HtmlCleaner`, `LinkParser`, `TextParser` and the Snowball stemmer;
  - URLs, which are compared as their strings.
- `Driver`, the servlets and `SearchServer` are I/O and wiring around the core.
- Writing to `Path`s and the `String`-returning convenience overloads of the JSON writer are left out. They only wrap the writer methods with a file or a `StringWriter`.
- `searchJSON`, `writeQuery` and `writeResult` are left out because they format scores as decimals with `DecimalFormat`.
- `indexToJson`, `wordCountsToJson` and `resultsToJson` are left out: they are file I/O over the writers.
- `ArgumentParser.getPath` and `toString` are left out: path conversion and debug text.
- `Result.isEmpty` is left out, because the core never calls it.
- Scores are exact rationals compared by cross-multiplication. `Double.compare` on the two quotients can disagree with this when rounding makes distinct scores equal.
- `toLowerCase` and `compareToIgnoreCase` fold ASCII letters only.
- StringOrder.CompareIgnoreCase: compares the folded strings by UTF-16 code units, as `String.compareToIgnoreCase` does up to Java 15. From Java 16 on, the Java method compares whole code points when it meets a surrogate pair, so there a supplementary character sorts after U+E000 to U+FFFF instead of before. The Java version is not pinned by the repository.
- Positions and counts are unbounded integers. Java `int` wrap-around past 2^31 − 1 positions is not modelled.
- `addAll` is modelled with value semantics. The Java code puts `local`'s own inner maps and sets into the target index (lines 301 and 306), so the two share them afterwards.
- Search.ExactSearch, Search.PartialSearch and Search.Run: these require `Valid(idx)`. It has four parts: every word has a location; every (word, location) pair has a position and its location has a word count; every position of a location lies between 1 and the location's word count; every word count is at least 1. The Java `add` keeps all of this for positions of 1 or more. It also accepts position 0 or a negative position, and then `updateCount` divides in `double` by a word count below 1, giving a score of `Infinity`, `NaN` or a negative number: `add("a", "x", 0)` followed by `exactSearch(["a"])` gives one result with score `Infinity`. Indexes with positions below 1 are not modelled. The builders and the crawler always start at position 1.
- Queries.ParseLine: the index is passed by value, and the stemmer is a function from a line to its stem set.
- Builder.Traverse: a directory that cannot be read and a file that cannot be opened (`IOException`) are not modelled.
- Crawler.IndexPage: any exception in `Task.run` is modelled as a page that cannot be fetched. Such a page adds nothing and claims no links.
- JsonWriter.AsObject and JsonWriter.AsNestedObject: the map is given as its entries in iteration order, because the Java signatures accept any `Map` and its order is unspecified.
