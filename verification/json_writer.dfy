/**
 * The pretty printer: arrays, flat maps, nested maps and the whole inverted
 * index rendered as tab-indented JSON-like text. A `Writer` is modelled as
 * the string it accumulates, so each writer is a method that appends to a
 * string in the same order the writes happen, and each has a reference
 * description: every item on its own line (a newline before it, a comma
 * between neighbours), then a newline and the indented closing bracket.
 */
module JsonWriter {
  import opened Text
  import opened StringOrder

  /** `indent(writer, times)`: `times` tabs, none when `times` is negative. */
  function Tabs(times: int): (r: string)
    ensures |r| == (if times < 0 then 0 else times)
    ensures forall k :: 0 <= k < |r| ==> r[k] == '\t'
    decreases times
  {
    if times <= 0 then "" else Tabs(times - 1) + "\t"
  }

  /** The writer loop of `indent(writer, times)`. */
  method Indent(times: int) returns (out: string)
    ensures out == Tabs(times)
  {
    out := "";
    var i := 0;
    while i < times
      invariant 0 <= i && (i <= times || times < 0)
      invariant times < 0 ==> i == 0
      invariant out == Tabs(i)
    {
      out := out + "\t";
      i := i + 1;
    }
  }

  /** `quote(element)`: the element between double quotes, nothing escaped. */
  function Quote(element: string): (r: string)
    ensures |r| == |element| + 2
    ensures r[0] == '"' && r[|r| - 1] == '"' && r[1..|r| - 1] == element
  {
    "\"" + element + "\""
  }

  /**
   * No escaping happens: the quoted text holds exactly two more quote
   * characters than the element, so an element with a quote in it is not
   * a well-formed JSON string.
   */
  lemma QuoteAddsTwoQuotes(element: string)
    ensures multiset(Quote(element))['"'] == multiset(element)['"'] + 2
  {
    assert Quote(element) == ['"'] + element + ['"'];
  }

  /** Each item preceded by a newline. */
  function Prefixed(items: seq<string>): (r: seq<string>)
    ensures |r| == |items|
    ensures forall i :: 0 <= i < |items| ==> r[i] == "\n" + items[i]
  {
    seq(|items|, i requires 0 <= i < |items| => "\n" + items[i])
  }

  /** The items each on a new line, a comma between neighbours; empty for no items. */
  function Lines(items: seq<string>): string {
    Join(Prefixed(items), ",")
  }

  /** A bracketed block: the opening bracket, the item lines, a newline, the indented closing bracket. */
  function Block(open: string, items: seq<string>, closeLevel: int, close: string): string {
    open + Lines(items) + "\n" + Tabs(closeLevel) + close
  }

  /** One turn of a writer loop: the first item gets a newline, every later one a comma and a newline. */
  lemma LinesStep(items: seq<string>, i: int)
    requires 0 <= i < |items|
    ensures Lines(items[..i + 1]) == Lines(items[..i]) + (if i == 0 then "" else ",") + "\n" + items[i]
  {
    var before, after := Prefixed(items[..i]), Prefixed(items[..i + 1]);
    assert after == before + ["\n" + items[i]];
    if i > 0 {
      JoinSnoc(before, "\n" + items[i], ",");
    }
  }

  /** What one turn of a writer loop appends keeps the text equal to the block written so far. */
  lemma WriteStep(open: string, out: string, items: seq<string>, i: int, item: string)
    requires 0 <= i < |items| && item == items[i]
    requires out == open + Lines(items[..i])
    ensures out + (if i == 0 then "\n" else ",\n") + item == open + Lines(items[..i + 1])
  {
    LinesStep(items, i);
  }

  /** The indented decimal integers of a collection, one item each. */
  function IntItems(values: seq<int>, level: int): (r: seq<string>)
    ensures |r| == |values|
  {
    seq(|values|, i requires 0 <= i < |values| => Tabs(level) + IntToString(values[i]))
  }

  /** A bracketed list of integers, items at `inner` tabs and `]` at `close` tabs. */
  function ListText(values: seq<int>, inner: int, close: int): string {
    Block("[", IntItems(values, inner), close, "]")
  }

  /** `asArray(elements, writer, level)`: items one level deeper, `]` one level shallower. */
  function ArrayText(values: seq<int>, level: int): string {
    ListText(values, level + 1, level - 1)
  }

  /** The loop shared by `asArray` and the inner loop of `writeNestedEntry`. */
  method WriteList(values: seq<int>, inner: int, close: int) returns (out: string)
    ensures out == ListText(values, inner, close)
  {
    var items := IntItems(values, inner);
    out := "[";
    var i := 0;
    while i < |values|
      invariant 0 <= i <= |values|
      invariant out == "[" + Lines(items[..i])
    {
      var tabs := Indent(inner);
      var item := tabs + IntToString(values[i]);
      WriteStep("[", out, items, i, item);
      out := out + (if i == 0 then "\n" else ",\n") + item;
      i := i + 1;
    }
    assert items[..i] == items;
    var tabs := Indent(close);
    out := out + "\n" + tabs + "]";
  }

  /** `asArray(elements, writer, level)`. */
  method AsArray(values: seq<int>, level: int) returns (out: string)
    ensures out == ArrayText(values, level)
  {
    out := WriteList(values, level + 1, level - 1);
  }

  /** An empty collection written at level 0 is an opening bracket, a newline and a closing bracket. */
  lemma EmptyArray()
    ensures ArrayText([], 0) == "[\n]"
  {
    assert Prefixed([]) == [];
  }

  /** No tab run and no decimal integer holds a comma or a newline. */
  lemma IntItemsPlain(values: seq<int>, level: int)
    ensures forall i :: 0 <= i < |values| ==>
              ',' !in IntItems(values, level)[i] && '\n' !in IntItems(values, level)[i]
  {
    forall i | 0 <= i < |values|
      ensures ',' !in IntItems(values, level)[i] && '\n' !in IntItems(values, level)[i]
    {
      var t, d := Tabs(level), IntToString(values[i]);
      assert IntItems(values, level)[i] == t + d;
      assert forall k :: 0 <= k < |t + d| ==> (t + d)[k] == '\t' || (t + d)[k] == '-' || IsDigit((t + d)[k]);
    }
  }

  /** The comma count of the item lines: one between each two neighbours, when the items have none. */
  lemma LinesCommas(items: seq<string>)
    requires forall i :: 0 <= i < |items| ==> ',' !in items[i]
    ensures multiset(Lines(items))[','] == (if |items| == 0 then 0 else |items| - 1)
  {
    var p := Prefixed(items);
    assert Avoids(p, ',') by {
      forall i | 0 <= i < |p| ensures ',' !in p[i] {
        assert p[i] == "\n" + items[i];
      }
    }
    assert multiset(",")[','] == 1;
    JoinCount(p, ",", ',');
    assert multiset(Join(p, ","))[','] == (if |p| == 0 then 0 else (|p| - 1) * 1);
  }

  /** A tab run holds no comma. */
  lemma TabsNoComma(times: int)
    ensures multiset(Tabs(times))[','] == 0
  {
    var t := Tabs(times);
    assert ',' !in t;
  }

  /** n elements produce exactly n - 1 separating commas (none for none). */
  lemma ArrayCommas(values: seq<int>, level: int)
    ensures multiset(ArrayText(values, level))[','] == (if |values| == 0 then 0 else |values| - 1)
  {
    var items := IntItems(values, level + 1);
    IntItemsPlain(values, level + 1);
    LinesCommas(items);
    TabsNoComma(level - 1);
    assert ArrayText(values, level) == "[" + Lines(items) + "\n" + Tabs(level - 1) + "]";
  }

  /** Two writings with the same brackets and closing indent agree exactly when their item lines do. */
  lemma BlockItems(open: string, a: seq<string>, b: seq<string>, closeLevel: int, close: string)
    ensures Block(open, a, closeLevel, close) == Block(open, b, closeLevel, close) ==> Lines(a) == Lines(b)
  {
    var tail := "\n" + Tabs(closeLevel) + close;
    var x, y := Block(open, a, closeLevel, close), Block(open, b, closeLevel, close);
    assert x == open + Lines(a) + tail;
    assert y == open + Lines(b) + tail;
    if x == y {
      assert |Lines(a)| == |Lines(b)|;
      assert Lines(a) == x[|open|..|x| - |tail|];
      assert Lines(b) == y[|open|..|y| - |tail|];
    }
  }

  /** Item lines of comma-free items can be split back into the items. */
  lemma LinesInjective(a: seq<string>, b: seq<string>)
    requires forall i :: 0 <= i < |a| ==> ',' !in a[i]
    requires forall i :: 0 <= i < |b| ==> ',' !in b[i]
    ensures Lines(a) == Lines(b) ==> a == b
  {
    var pa, pb := Prefixed(a), Prefixed(b);
    forall i | 0 <= i < |pa| ensures |pa[i]| > 0 && ',' !in pa[i] {
      assert pa[i] == "\n" + a[i];
    }
    forall i | 0 <= i < |pb| ensures |pb[i]| > 0 && ',' !in pb[i] {
      assert pb[i] == "\n" + b[i];
    }
    if Lines(a) == Lines(b) {
      JoinInjective(pa, pb, ',');
      forall i | 0 <= i < |a| ensures a[i] == b[i] {
        assert pa[i] == pb[i];
        assert a[i] == pa[i][1..];
        assert b[i] == pb[i][1..];
      }
    }
  }

  /** A bracketed list of integers determines the integers and their order: nothing is lost or reordered. */
  lemma ListInjective(a: seq<int>, b: seq<int>, inner: int, close: int)
    ensures ListText(a, inner, close) == ListText(b, inner, close) <==> a == b
  {
    var ia, ib := IntItems(a, inner), IntItems(b, inner);
    if ListText(a, inner, close) == ListText(b, inner, close) {
      BlockItems("[", ia, ib, close, "]");
      IntItemsPlain(a, inner);
      IntItemsPlain(b, inner);
      LinesInjective(ia, ib);
      forall i | 0 <= i < |a| ensures a[i] == b[i] {
        var t := Tabs(inner);
        assert ia[i] == t + IntToString(a[i]);
        assert ib[i] == t + IntToString(b[i]);
        assert IntToString(a[i]) == ia[i][|t|..];
        assert IntToString(b[i]) == ib[i][|t|..];
        IntToStringRoundTrip(a[i]);
        IntToStringRoundTrip(b[i]);
      }
    }
  }

  /** The text `asArray` writes determines the elements in iteration order. */
  lemma ArrayInjective(a: seq<int>, b: seq<int>, level: int)
    ensures ArrayText(a, level) == ArrayText(b, level) <==> a == b
  {
    ListInjective(a, b, level + 1, level - 1);
  }

  /**
   * `asArray` closes one level shallower than the inner array of
   * `writeNestedEntry`, which closes at its own level; the two layouts
   * agree only at level 0 or below.
   */
  lemma ArrayClosing(values: seq<int>, level: int)
    ensures ArrayText(values, level) == ListText(values, level + 1, level) <==> level <= 0
  {
    var lines := Lines(IntItems(values, level + 1));
    var x, y := ArrayText(values, level), ListText(values, level + 1, level);
    assert x == "[" + lines + "\n" + Tabs(level - 1) + "]";
    assert y == "[" + lines + "\n" + Tabs(level) + "]";
    if level <= 0 {
      assert Tabs(level - 1) == "" == Tabs(level);
    } else {
      assert |x| + 1 == |y|;
    }
  }

  /** `writeEntry(entry, writer, level)`: indented quoted key, a colon and a space, the decimal value. */
  function EntryText(key: string, value: int, level: int): string {
    Tabs(level) + Quote(key) + ": " + IntToString(value)
  }

  /** The entries of a flat map in its iteration order, one level deeper. */
  function EntryItems(entries: seq<(string, int)>, level: int): (r: seq<string>)
    ensures |r| == |entries|
  {
    seq(|entries|, i requires 0 <= i < |entries| => EntryText(entries[i].0, entries[i].1, level))
  }

  /** `asObject(elements, writer, level)`: entries one level deeper, `}` at the starting level. */
  function ObjectText(entries: seq<(string, int)>, level: int): string {
    Block("{", EntryItems(entries, level + 1), level, "}")
  }

  /** `writeEntry`. */
  method WriteEntry(key: string, value: int, level: int) returns (out: string)
    ensures out == EntryText(key, value, level)
  {
    var tabs := Indent(level);
    out := tabs + Quote(key) + ": " + IntToString(value);
  }

  /** `asObject(elements, writer, level)`, the map given as its entries in iteration order. */
  method AsObject(entries: seq<(string, int)>, level: int) returns (out: string)
    ensures out == ObjectText(entries, level)
  {
    var items := EntryItems(entries, level + 1);
    out := "{";
    var i := 0;
    while i < |entries|
      invariant 0 <= i <= |entries|
      invariant out == "{" + Lines(items[..i])
    {
      var item := WriteEntry(entries[i].0, entries[i].1, level + 1);
      WriteStep("{", out, items, i, item);
      out := out + (if i == 0 then "\n" else ",\n") + item;
      i := i + 1;
    }
    assert items[..i] == items;
    var tabs := Indent(level);
    out := out + "\n" + tabs + "}";
  }

  /** An entry with a comma-free key holds no comma. */
  lemma EntryNoComma(key: string, value: int, level: int)
    requires ',' !in key
    ensures ',' !in EntryText(key, value, level)
  {
    var t, q, d := Tabs(level), Quote(key), IntToString(value);
    assert ',' !in t;
    assert q == "\"" + key + "\"";
    assert ',' !in d;
    assert EntryText(key, value, level) == t + q + ": " + d;
  }

  /** With comma-free keys, n entries are separated by exactly n - 1 commas. */
  lemma ObjectCommas(entries: seq<(string, int)>, level: int)
    requires forall i :: 0 <= i < |entries| ==> ',' !in entries[i].0
    ensures multiset(ObjectText(entries, level))[','] == (if |entries| == 0 then 0 else |entries| - 1)
  {
    var items := EntryItems(entries, level + 1);
    forall i | 0 <= i < |items| ensures ',' !in items[i] {
      EntryNoComma(entries[i].0, entries[i].1, level + 1);
    }
    LinesCommas(items);
    TabsNoComma(level);
    assert ObjectText(entries, level) == "{" + Lines(items) + "\n" + Tabs(level) + "}";
  }

  /** `writeNestedEntry(entry, writer, level)`: the key, then its integers one level deeper, `]` at `level`. */
  function NestedEntryText(key: string, values: seq<int>, level: int): string {
    Tabs(level) + Quote(key) + ": " + ListText(values, level + 1, level)
  }

  /** The entries of a nested map in its iteration order, one level deeper. */
  function NestedItems(entries: seq<(string, seq<int>)>, level: int): (r: seq<string>)
    ensures |r| == |entries|
  {
    seq(|entries|, i requires 0 <= i < |entries| => NestedEntryText(entries[i].0, entries[i].1, level))
  }

  /** `asNestedObject(elements, writer, level)`: entries one level deeper, `}` at the starting level. */
  function NestedObjectText(entries: seq<(string, seq<int>)>, level: int): string {
    Block("{", NestedItems(entries, level + 1), level, "}")
  }

  /** `writeNestedEntry`. */
  method WriteNestedEntry(key: string, values: seq<int>, level: int) returns (out: string)
    ensures out == NestedEntryText(key, values, level)
  {
    var tabs := Indent(level);
    var list := WriteList(values, level + 1, level);
    out := tabs + Quote(key) + ": " + list;
  }

  /** The array inside a nested entry lists the integers in order and can be read back. */
  lemma NestedEntryInjective(key: string, a: seq<int>, b: seq<int>, level: int)
    ensures NestedEntryText(key, a, level) == NestedEntryText(key, b, level) <==> a == b
  {
    if NestedEntryText(key, a, level) == NestedEntryText(key, b, level) {
      var head := Tabs(level) + Quote(key) + ": ";
      var la, lb := ListText(a, level + 1, level), ListText(b, level + 1, level);
      assert NestedEntryText(key, a, level) == head + la;
      assert NestedEntryText(key, b, level) == head + lb;
      assert la == (head + la)[|head|..];
      assert lb == (head + lb)[|head|..];
      ListInjective(a, b, level + 1, level);
    }
  }

  /** `asNestedObject(elements, writer, level)`, the map given as its entries in iteration order. */
  method AsNestedObject(entries: seq<(string, seq<int>)>, level: int) returns (out: string)
    ensures out == NestedObjectText(entries, level)
  {
    var items := NestedItems(entries, level + 1);
    out := "{";
    var i := 0;
    while i < |entries|
      invariant 0 <= i <= |entries|
      invariant out == "{" + Lines(items[..i])
    {
      var item := WriteNestedEntry(entries[i].0, entries[i].1, level + 1);
      WriteStep("{", out, items, i, item);
      out := out + (if i == 0 then "\n" else ",\n") + item;
      i := i + 1;
    }
    assert items[..i] == items;
    var tabs := Indent(level);
    out := out + "\n" + tabs + "}";
  }

  /** A location map as a tree map iterates it: locations in key order, each with its positions ascending. */
  function LocationEntries(locations: map<string, set<int>>): (r: seq<(string, seq<int>)>)
    ensures |r| == |locations|
    ensures StrictlySorted(seq(|r|, i requires 0 <= i < |r| => r[i].0))
    ensures forall i :: 0 <= i < |r| ==>
              && r[i].0 in locations
              && Ascending(r[i].1)
              && (forall p :: p in r[i].1 <==> p in locations[r[i].0])
    ensures forall l :: l in locations ==> exists i :: 0 <= i < |r| && r[i].0 == l
  {
    var ls := SortedStrings(locations.Keys);
    var r := seq(|ls|, i requires 0 <= i < |ls| => (ls[i], SortedInts(locations[ls[i]])));
    assert seq(|r|, i requires 0 <= i < |r| => r[i].0) == ls;
    assert forall l :: l in locations ==> l in ls;
    r
  }

  /**
   * `writeInvertedIndexEntry(entry, writer, level)`: the word, then its
   * location map written as `asNestedObject` writes a map at the same level.
   */
  function IndexEntryText(word: string, locations: map<string, set<int>>, level: int): string {
    Tabs(level) + Quote(word) + ": " + NestedObjectText(LocationEntries(locations), level)
  }

  /** `writeInvertedIndexEntry`: the location loop reuses `writeNestedEntry` one level deeper. */
  method WriteIndexEntry(word: string, locations: map<string, set<int>>, level: int) returns (out: string)
    ensures out == IndexEntryText(word, locations, level)
  {
    var entries := LocationEntries(locations);
    var tabs := Indent(level);
    var body := AsNestedObject(entries, level);
    out := tabs + Quote(word) + ": " + body;
  }

  /** The words of an index as a tree map iterates them, each entry one level deeper. */
  function IndexItems(terms: map<string, map<string, set<int>>>, level: int): (r: seq<string>)
    ensures |r| == |terms|
  {
    var ws := SortedStrings(terms.Keys);
    seq(|ws|, i requires 0 <= i < |ws| => IndexEntryText(ws[i], terms[ws[i]], level))
  }

  /** The entry at position `i` is the `i`-th word in key order with its locations. */
  lemma IndexItemAt(terms: map<string, map<string, set<int>>>, level: int, i: int)
    requires 0 <= i < |terms|
    ensures var ws := SortedStrings(terms.Keys);
            ws[i] in terms && IndexItems(terms, level)[i] == IndexEntryText(ws[i], terms[ws[i]], level)
  {
  }

  /**
   * `invertedIndexJSON(elements, writer, level)`: one entry per word, in
   * key order; the closing `}` is written two levels below the entries,
   * that is one level shallower than the starting level.
   */
  function IndexText(terms: map<string, map<string, set<int>>>, level: int): string {
    Block("{", IndexItems(terms, level + 1), level - 1, "}")
  }

  /** `invertedIndexJSON(elements, writer, level)`. */
  method WriteIndex(terms: map<string, map<string, set<int>>>, level: int) returns (out: string)
    ensures out == IndexText(terms, level)
  {
    var ws := SortedStrings(terms.Keys);
    var items := IndexItems(terms, level + 1);
    out := "{";
    var i := 0;
    while i < |ws|
      invariant 0 <= i <= |ws|
      invariant out == "{" + Lines(items[..i])
    {
      var item := WriteIndexEntry(ws[i], terms[ws[i]], level + 1);
      IndexItemAt(terms, level + 1, i);
      WriteStep("{", out, items, i, item);
      out := out + (if i == 0 then "\n" else ",\n") + item;
      i := i + 1;
    }
    assert items[..i] == items;
    var tabs := Indent(level - 1);
    out := out + "\n" + tabs + "}";
  }

  /** A block with items opens with its bracket and the first item's line. */
  lemma BlockStart(open: string, items: seq<string>, closeLevel: int, close: string, pre: string)
    requires |items| > 0 && StartsWith("\n" + items[0], pre)
    ensures StartsWith(Block(open, items, closeLevel, close), open + pre)
  {
    var p := Prefixed(items);
    JoinFirst(p, ",");
    var j := Join(p, ",");
    assert j == p[0] + j[|p[0]|..];
    var tail := "\n" + Tabs(closeLevel) + close;
    var rest := p[0][|pre|..] + j[|p[0]|..] + tail;
    assert p[0] == pre + p[0][|pre|..];
    assert Block(open, items, closeLevel, close) == open + pre + rest;
  }

  /** The index text at level 0 opens with the first word in key order and the brace of its locations. */
  lemma FirstEntryStart(terms: map<string, map<string, set<int>>>, w: string)
    requires |terms| > 0 && SortedStrings(terms.Keys)[0] == w
    ensures StartsWith(IndexText(terms, 0), "{" + ("\n" + Tabs(1) + Quote(w) + ": " + "{"))
  {
    var items := IndexItems(terms, 1);
    IndexItemAt(terms, 1, 0);
    var nested := NestedObjectText(LocationEntries(terms[w]), 1);
    var head := "\n" + Tabs(1) + Quote(w) + ": ";
    assert nested == "{" + nested[1..];
    assert "\n" + items[0] == head + nested;
    var pre := head + "{";
    assert "\n" + items[0] == pre + nested[1..];
    BlockStart("{", items, -1, "}", pre);
    assert IndexText(terms, 0) == Block("{", items, -1, "}");
  }
}
