/**
 * Building the index from the file system: a recursive walk that indexes
 * every text file, each file's stemmed tokens taking positions 1, 2, 3, …
 * in reading order across all of its lines. Reading and stemming are not
 * modelled: a file is its lines of already-stemmed tokens, and the file
 * system is a tree whose directories list their entries in stream order.
 */
module Builder {
  import opened Text
  import opened InvertedIndex

  /** `isTextFile(path)`: the lower-cased path ends in ".txt" or ".text". */
  predicate IsTextFile(path: string) {
    var lower := Lower(path);
    EndsWith(lower, ".txt") || EndsWith(lower, ".text")
  }

  /** Case folding the whole path only matters for its last four or five characters. */
  lemma TextFileSuffix(path: string)
    ensures IsTextFile(path) <==>
              (|path| >= 4 && Lower(path[|path| - 4..]) == ".txt")
              || (|path| >= 5 && Lower(path[|path| - 5..]) == ".text")
  {
    var lower := Lower(path);
    if |path| >= 4 {
      assert lower[|path| - 4..] == Lower(path[|path| - 4..]);
    }
    if |path| >= 5 {
      assert lower[|path| - 5..] == Lower(path[|path| - 5..]);
    }
  }

  /** The tokens of a file in reading order: its lines one after the other. */
  function Flatten(lines: seq<seq<string>>): seq<string>
    decreases |lines|
  {
    if |lines| == 0 then [] else Flatten(lines[..|lines| - 1]) + lines[|lines| - 1]
  }

  /**
   * Static `addToIndex(location, index)`: a counter that starts at 0 and is
   * not reset between lines numbers the tokens 1, 2, 3, …, so the file is
   * added as one word sequence from position 1.
   */
  method AddFile(idx: Index, location: string, lines: seq<seq<string>>) returns (r: Index)
    ensures r == AddWords(idx, Flatten(lines), location, 1)
  {
    r := idx;
    var counter := 0;
    var i := 0;
    while i < |lines|
      invariant 0 <= i <= |lines|
      invariant counter == |Flatten(lines[..i])|
      invariant r == AddWords(idx, Flatten(lines[..i]), location, 1)
    {
      var line := lines[i];
      var j := 0;
      assert Flatten(lines[..i]) + line[..0] == Flatten(lines[..i]);
      while j < |line|
        invariant 0 <= j <= |line|
        invariant counter == |Flatten(lines[..i])| + j
        invariant r == AddWords(idx, Flatten(lines[..i]) + line[..j], location, 1)
      {
        counter := counter + 1;
        AddWordsSnoc(idx, Flatten(lines[..i]) + line[..j], line[j], location, 1);
        assert Flatten(lines[..i]) + line[..j] + [line[j]] == Flatten(lines[..i]) + line[..j + 1];
        r := Add(r, line[j], location, counter);
        j := j + 1;
      }
      assert lines[..i + 1][..i] == lines[..i];
      assert line[..j] == line;
      i := i + 1;
    }
    assert lines[..i] == lines;
  }

  /**
   * A file indexed into an empty index gets a word count equal to its
   * number of tokens, and each token sits at its place in reading order.
   */
  lemma FreshFile(location: string, lines: seq<seq<string>>)
    requires |Flatten(lines)| > 0
    ensures var r := AddWords(Empty(), Flatten(lines), location, 1);
      && GetWordCount(r, location).Some?
      && GetWordCount(r, location).value == |Flatten(lines)|
      && forall w, p :: HasPosition(r, w, location, p) <==>
           1 <= p <= |Flatten(lines)| && w == Flatten(lines)[p - 1]
  {
    AddWordsCounts(Empty(), Flatten(lines), location, 1);
    AddWordsPositions(Empty(), Flatten(lines), location, 1);
  }

  /** A file-system entry: a file with its token lines, or a directory with its entries. */
  datatype Path =
    | File(path: string, lines: seq<seq<string>>)
    | Directory(path: string, entries: seq<Path>)

  /** A text file found by the walk: its location string and its tokens. */
  datatype TextFile = TextFile(location: string, tokens: seq<string>)

  /** The text files of a tree in the order the walk meets them. */
  function TextFiles(p: Path): seq<TextFile>
    decreases p, 1
  {
    match p
    case File(path, lines) => if IsTextFile(path) then [TextFile(path, Flatten(lines))] else []
    case Directory(_, entries) => TextFilesOf(entries, p)
  }

  function TextFilesOf(entries: seq<Path>, ghost parent: Path): seq<TextFile>
    requires forall i :: 0 <= i < |entries| ==> entries[i] < parent
    decreases parent, 0, |entries|
  {
    if |entries| == 0 then []
    else
      TextFilesOf(entries[..|entries| - 1], parent) + TextFiles(entries[|entries| - 1])
  }

  /** Indexing a list of files one after the other. */
  function IndexFiles(idx: Index, files: seq<TextFile>): Index
    decreases |files|
  {
    if |files| == 0 then idx
    else AddWords(IndexFiles(idx, files[..|files| - 1]), files[|files| - 1].tokens, files[|files| - 1].location, 1)
  }

  lemma {:induction false} IndexFilesAppend(idx: Index, a: seq<TextFile>, b: seq<TextFile>)
    ensures IndexFiles(idx, a + b) == IndexFiles(IndexFiles(idx, a), b)
    decreases |b|
  {
    if |b| == 0 {
      assert a + b == a;
    } else {
      assert (a + b)[..|a + b| - 1] == a + b[..|b| - 1];
      IndexFilesAppend(idx, a, b[..|b| - 1]);
    }
  }

  /** `traverseDirectory(path)`: directories are walked in stream order, non-text files skipped. */
  method Traverse(idx: Index, p: Path) returns (r: Index)
    ensures r == IndexFiles(idx, TextFiles(p))
    decreases p
  {
    match p
    case File(path, lines) =>
      if IsTextFile(path) {
        r := AddFile(idx, path, lines);
        assert IndexFiles(idx, [TextFile(path, Flatten(lines))]) == AddWords(idx, Flatten(lines), path, 1);
      } else {
        r := idx;
      }
    case Directory(_, entries) =>
      r := idx;
      var i := 0;
      while i < |entries|
        invariant 0 <= i <= |entries|
        invariant r == IndexFiles(idx, TextFilesOf(entries[..i], p))
      {
        assert entries[..i + 1][..i] == entries[..i];
        IndexFilesAppend(idx, TextFilesOf(entries[..i], p), TextFiles(entries[i]));
        r := Traverse(r, entries[i]);
        i := i + 1;
      }
      assert entries[..i] == entries;
  }

  /**
   * After the walk, the locations with a word count are those counted before
   * plus every text file of the tree that has at least one token; a
   * non-text file never becomes a location.
   */
  lemma {:induction false} IndexFilesCounted(idx: Index, files: seq<TextFile>, location: string)
    ensures Counted(IndexFiles(idx, files), location) <==>
              Counted(idx, location) || exists f :: f in files && f.location == location && |f.tokens| > 0
    decreases |files|
  {
    if |files| > 0 {
      var init := files[..|files| - 1];
      var last := files[|files| - 1];
      IndexFilesCounted(idx, init, location);
      AddWordsCounts(IndexFiles(idx, init), last.tokens, last.location, 1);
      assert forall f :: f in files <==> f in init || f == last;
    }
  }

  /** `q` is `p` itself or lies somewhere below it. */
  ghost predicate Contains(p: Path, q: Path)
    decreases p
  {
    p == q || (p.Directory? && exists i :: 0 <= i < |p.entries| && Contains(p.entries[i], q))
  }

  /** `f` is a text file somewhere in the tree `p`, with its tokens in reading order. */
  ghost predicate TextLeaf(p: Path, f: TextFile) {
    exists path, lines :: Contains(p, File(path, lines)) && IsTextFile(path) && f == TextFile(path, Flatten(lines))
  }

  /** The walk lists every text file of the tree and nothing else. */
  lemma {:induction false} TextFilesExactly(p: Path)
    ensures forall f :: f in TextFiles(p) <==> TextLeaf(p, f)
    decreases p, 1
  {
    match p
    case File(path, lines) =>
      forall f ensures f in TextFiles(p) <==> TextLeaf(p, f) {
        if TextLeaf(p, f) {
          var path', lines' :| Contains(p, File(path', lines')) && IsTextFile(path') && f == TextFile(path', Flatten(lines'));
          assert File(path', lines') == p;
        }
      }
    case Directory(_, entries) =>
      TextFilesOfExactly(entries, p);
      forall f ensures TextLeaf(p, f) <==> exists i :: 0 <= i < |entries| && TextLeaf(entries[i], f) {
        if TextLeaf(p, f) {
          var path, lines :| Contains(p, File(path, lines)) && IsTextFile(path) && f == TextFile(path, Flatten(lines));
          var i :| 0 <= i < |entries| && Contains(entries[i], File(path, lines));
          assert TextLeaf(entries[i], f);
        }
        if exists i :: 0 <= i < |entries| && TextLeaf(entries[i], f) {
          var i :| 0 <= i < |entries| && TextLeaf(entries[i], f);
          var path, lines :| Contains(entries[i], File(path, lines)) && IsTextFile(path) && f == TextFile(path, Flatten(lines));
          assert Contains(p, File(path, lines));
        }
      }
  }

  lemma {:induction false} TextFilesOfExactly(entries: seq<Path>, parent: Path)
    requires forall i :: 0 <= i < |entries| ==> entries[i] < parent
    ensures forall f :: f in TextFilesOf(entries, parent) <==> exists i :: 0 <= i < |entries| && TextLeaf(entries[i], f)
    decreases parent, 0, |entries|
  {
    if |entries| > 0 {
      var n := |entries| - 1;
      TextFilesOfExactly(entries[..n], parent);
      TextFilesExactly(entries[n]);
      forall f ensures (exists i :: 0 <= i < |entries| && TextLeaf(entries[i], f))
                       <==> (exists i :: 0 <= i < n && TextLeaf(entries[..n][i], f)) || TextLeaf(entries[n], f)
      {
        if exists i :: 0 <= i < |entries| && TextLeaf(entries[i], f) {
          var i :| 0 <= i < |entries| && TextLeaf(entries[i], f);
          if i < n {
            assert entries[..n][i] == entries[i];
          }
        }
        if exists i :: 0 <= i < n && TextLeaf(entries[..n][i], f) {
          var i :| 0 <= i < n && TextLeaf(entries[..n][i], f);
          assert entries[..n][i] == entries[i];
        }
      }
    }
  }

  /**
   * The walk's effect on locations: a location gains a word count exactly
   * when it is a text file of the tree with at least one token. Non-text
   * files and empty text files never become locations.
   */
  lemma TraverseLocations(idx: Index, p: Path, location: string)
    ensures Counted(IndexFiles(idx, TextFiles(p)), location) <==>
              Counted(idx, location) || exists f :: TextLeaf(p, f) && f.location == location && |f.tokens| > 0
  {
    IndexFilesCounted(idx, TextFiles(p), location);
    TextFilesExactly(p);
  }
}
