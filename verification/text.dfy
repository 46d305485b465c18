/**
 * String helpers shared by the model: the prefix and suffix tests of
 * `java.lang.String`, ASCII case folding, joining with a separator and the
 * decimal rendering of `Integer.toString`.
 */
module Text {

  /** `s.startsWith(prefix)`. */
  predicate StartsWith(s: string, prefix: string) {
    |prefix| <= |s| && s[..|prefix|] == prefix
  }

  /** `s.endsWith(suffix)`. */
  predicate EndsWith(s: string, suffix: string) {
    |suffix| <= |s| && s[|s| - |suffix|..] == suffix
  }

  /** No string is listed twice. */
  predicate Distinct(s: seq<string>) {
    forall i, j :: 0 <= i < j < |s| ==> s[i] != s[j]
  }

  /** Lower-case of one character; only the ASCII letters are folded. */
  function LowerChar(c: char): char {
    if 'A' <= c <= 'Z' then (c as int - 'A' as int + 'a' as int) as char else c
  }

  /** `s.toLowerCase()` on the ASCII letters. */
  function Lower(s: string): (r: string)
    ensures |r| == |s|
    ensures forall i :: 0 <= i < |s| ==> r[i] == LowerChar(s[i])
  {
    seq(|s|, i requires 0 <= i < |s| => LowerChar(s[i]))
  }

  /** `String.join(sep, parts)`: the parts in order, `sep` between neighbours. */
  function Join(parts: seq<string>, sep: string): string
  {
    if |parts| == 0 then ""
    else if |parts| == 1 then parts[0]
    else Join(parts[..|parts| - 1], sep) + sep + parts[|parts| - 1]
  }

  /** Appending one more part adds the separator and the part at the end. */
  lemma JoinSnoc(parts: seq<string>, part: string, sep: string)
    requires |parts| > 0
    ensures Join(parts + [part], sep) == Join(parts, sep) + sep + part
  {
    assert (parts + [part])[..|parts|] == parts;
  }

  /** True when `c` occurs nowhere in any of `parts`. */
  predicate Avoids(parts: seq<string>, c: char) {
    forall i :: 0 <= i < |parts| ==> c !in parts[i]
  }

  /** A joined string begins with its first part. */
  lemma {:induction false} JoinFirst(parts: seq<string>, sep: string)
    requires |parts| > 0
    ensures StartsWith(Join(parts, sep), parts[0])
    decreases |parts|
  {
    if |parts| > 1 {
      var init := parts[..|parts| - 1];
      JoinFirst(init, sep);
      var j := Join(init, sep);
      assert Join(parts, sep) == j + sep + parts[|parts| - 1];
      assert (j + sep + parts[|parts| - 1])[..|parts[0]|] == j[..|parts[0]|];
    }
  }

  /** Every occurrence of a character in a joined string comes from a part or a separator. */
  lemma {:induction false} JoinCount(parts: seq<string>, sep: string, c: char)
    requires Avoids(parts, c)
    ensures multiset(Join(parts, sep))[c] == (if |parts| == 0 then 0 else (|parts| - 1) * multiset(sep)[c])
    decreases |parts|
  {
    var k := multiset(sep)[c];
    if |parts| > 1 {
      var init := parts[..|parts| - 1];
      var last := parts[|parts| - 1];
      assert Avoids(init, c) by {
        forall i | 0 <= i < |init| ensures c !in init[i] {
          assert init[i] == parts[i];
        }
      }
      JoinCount(init, sep, c);
      var j := Join(init, sep);
      assert multiset(last)[c] == 0;
      assert Join(parts, sep) == j + sep + last;
      assert multiset(j + sep + last) == multiset(j) + multiset(sep) + multiset(last);
      assert multiset(j)[c] == (|parts| - 2) * k;
      assert (|parts| - 2) * k + k == (|parts| - 1) * k;
    } else if |parts| == 1 {
      assert multiset(parts[0])[c] == 0;
    }
  }

  /** A joined sequence of non-empty parts free of `sep` can be split back: joining is injective. */
  lemma {:induction false} JoinInjective(a: seq<string>, b: seq<string>, sep: char)
    requires forall i :: 0 <= i < |a| ==> |a[i]| > 0 && sep !in a[i]
    requires forall i :: 0 <= i < |b| ==> |b[i]| > 0 && sep !in b[i]
    requires Join(a, [sep]) == Join(b, [sep])
    ensures a == b
    decreases |a| + |b|
  {
    if |a| == 0 || |b| == 0 {
      if |a| > 0 { JoinNonEmpty(a, sep); }
      if |b| > 0 { JoinNonEmpty(b, sep); }
    } else if |a| == 1 || |b| == 1 {
      if |a| > 1 { JoinHasSeparator(a, sep); }
      if |b| > 1 { JoinHasSeparator(b, sep); }
    } else {
      var s := Join(a, [sep]);
      var x, y := a[|a| - 1], b[|b| - 1];
      var ja, jb := Join(a[..|a| - 1], [sep]), Join(b[..|b| - 1], [sep]);
      assert s == ja + [sep] + x;
      assert s == jb + [sep] + y;
      LastSeparator(ja, x, jb, y, sep);
      JoinInjective(a[..|a| - 1], b[..|b| - 1], sep);
      assert a == a[..|a| - 1] + [x];
      assert b == b[..|b| - 1] + [y];
    }
  }

  /** Two strings that end in `sep` plus a `sep`-free tail split at the same place. */
  lemma LastSeparator(ja: string, x: string, jb: string, y: string, sep: char)
    requires sep !in x && sep !in y
    requires ja + [sep] + x == jb + [sep] + y
    ensures x == y && ja == jb
  {
    var s := ja + [sep] + x;
    assert forall k :: |ja| < k < |s| ==> s[k] == x[k - |ja| - 1];
    assert forall k :: |jb| < k < |s| ==> s[k] == y[k - |jb| - 1];
    assert s[|ja|] == sep && s[|jb|] == sep;
    assert |ja| == |jb|;
    assert x == s[|ja| + 1..] == y;
    assert ja == s[..|ja|] == jb;
  }

  lemma {:induction false} JoinNonEmpty(a: seq<string>, sep: char)
    requires |a| > 0 && |a[|a| - 1]| > 0
    ensures |Join(a, [sep])| > 0
  {
  }

  lemma {:induction false} JoinHasSeparator(a: seq<string>, sep: char)
    requires |a| > 1
    ensures sep in Join(a, [sep])
  {
    var s := Join(a, [sep]);
    var j := Join(a[..|a| - 1], [sep]);
    assert s == j + [sep] + a[|a| - 1];
    assert s[|j|] == sep;
  }

  /** The character spelling the decimal digit `d`. */
  function DigitChar(d: int): char
    requires 0 <= d < 10
  {
    ('0' as int + d) as char
  }

  /** The digit a character spells (meaningful for '0'..'9'). */
  function DigitValue(c: char): int {
    c as int - '0' as int
  }

  predicate IsDigit(c: char) {
    '0' <= c <= '9'
  }

  /** Decimal digits of a natural number, without leading zeros. */
  function NatToString(n: nat): (r: string)
    ensures |r| > 0
    ensures forall i :: 0 <= i < |r| ==> IsDigit(r[i])
  {
    if n < 10 then [DigitChar(n)] else NatToString(n / 10) + [DigitChar(n % 10)]
  }

  /** `Integer.toString(n)`: an optional minus sign, then the digits of |n|. */
  function IntToString(n: int): (r: string)
    ensures |r| > 0
    ensures forall i :: 0 <= i < |r| ==> IsDigit(r[i]) || (i == 0 && r[i] == '-' && n < 0)
  {
    if n < 0 then "-" + NatToString(-n) else NatToString(n)
  }

  /** Reads a string of decimal digits back into a number. */
  function ParseNat(s: string): int {
    if |s| == 0 then 0 else ParseNat(s[..|s| - 1]) * 10 + DigitValue(s[|s| - 1])
  }

  /** Reads an optionally signed decimal numeral back into a number. */
  function ParseInt(s: string): int {
    if |s| > 0 && s[0] == '-' then -ParseNat(s[1..]) else ParseNat(s)
  }

  lemma {:induction false} ParseNatToString(n: nat)
    ensures ParseNat(NatToString(n)) == n
  {
    if n >= 10 {
      var s := NatToString(n);
      assert s[..|s| - 1] == NatToString(n / 10);
      ParseNatToString(n / 10);
    }
  }

  /** The decimal rendering of an integer reads back as the same integer. */
  lemma IntToStringRoundTrip(n: int)
    ensures ParseInt(IntToString(n)) == n
  {
    if n < 0 {
      ParseNatToString(-n);
      assert IntToString(n)[1..] == NatToString(-n);
    } else {
      ParseNatToString(n);
    }
  }
}
