/**
 * The command-line parser: flags (a dash followed by at least one more
 * character) mapped to the value that follows them, if any. Arguments may be
 * null, and a flag seen without a value maps to null; both are `None` here.
 */
module Arguments {
  import opened Wrappers
  import opened Text

  /** One entry of `String[] args`; `None` stands for null. */
  type Arg = Option<string>

  /** `isFlag(arg)`: non-null, longer than one character, starts with a dash. */
  predicate IsFlag(arg: Arg) {
    arg.Some? && |arg.value| > 1 && StartsWith(arg.value, "-")
  }

  /**
   * `isValue(arg)`: non-null, non-empty, does not start with a dash. Nothing
   * is both, and only null, "" and "-" are neither.
   */
  predicate IsValue(arg: Arg)
    ensures IsValue(arg) ==> !IsFlag(arg)
    ensures !IsValue(arg) && !IsFlag(arg) <==> arg == None || arg.value == "" || arg.value == "-"
  {
    arg.Some? && |arg.value| >= 1 && !StartsWith(arg.value, "-")
  }

  /** The flag-to-value map; `None` is a flag without a value. */
  datatype ArgumentParser = ArgumentParser(flags: map<string, Arg>)

  /** `new ArgumentParser()`. */
  function Fresh(): ArgumentParser {
    ArgumentParser(map[])
  }

  /** The value a flag at position `j` takes: the next argument if it is a value, else null. */
  function ValueAfter(args: seq<Arg>, j: int): Arg
    requires 0 <= j < |args|
  {
    if j + 1 < |args| && IsValue(args[j + 1]) then args[j + 1] else None
  }

  /** `f` appears as a flag among the first `n` arguments. */
  ghost predicate OccursBefore(args: seq<Arg>, n: int, f: string)
    requires 0 <= n <= |args|
  {
    exists j :: 0 <= j < n && args[j] == Some(f) && IsFlag(args[j])
  }

  /** No argument after position `j` and before position `n` repeats `args[j]`. */
  ghost predicate LastBefore(args: seq<Arg>, n: int, j: int)
    requires 0 <= j < n <= |args|
  {
    forall k :: j < k < n ==> args[k] != args[j]
  }

  /**
   * What parsing the first `n` arguments into `before` yields: the flags
   * seen are added, each mapped to the value after its last occurrence, and
   * every other entry is kept.
   */
  ghost predicate ParsedUpTo(before: map<string, Arg>, args: seq<Arg>, n: int, after: map<string, Arg>)
    requires 0 <= n <= |args|
  {
    && (forall f :: f in after <==> f in before || OccursBefore(args, n, f))
    && (forall f :: f in before && !OccursBefore(args, n, f) ==> after[f] == before[f])
    && (forall j :: 0 <= j < n && IsFlag(args[j]) && LastBefore(args, n, j) ==>
          args[j].value in after && after[args[j].value] == ValueAfter(args, j))
  }

  ghost predicate Parsed(before: ArgumentParser, args: seq<Arg>, after: ArgumentParser) {
    ParsedUpTo(before.flags, args, |args|, after.flags)
  }

  /** Arguments that are not flags add no occurrence. */
  lemma OccursExtend(args: seq<Arg>, i: int, next: int, f: string)
    requires 0 <= i < next <= |args|
    requires forall k :: i < k < next ==> !IsFlag(args[k])
    ensures OccursBefore(args, next, f) <==> OccursBefore(args, i, f) || (IsFlag(args[i]) && args[i] == Some(f))
  {
    if OccursBefore(args, next, f) {
      var j :| 0 <= j < next && args[j] == Some(f) && IsFlag(args[j]);
      assert j < i || j == i;
    }
    if IsFlag(args[i]) && args[i] == Some(f) {
      assert 0 <= i < next;
    }
  }

  /**
   * One turn of the loop in `parse`: the argument at `i` and the value it
   * consumes, if any (positions up to `next`), extend the description.
   */
  lemma ParsedExtend(before: map<string, Arg>, args: seq<Arg>, i: int, next: int,
                     flags: map<string, Arg>, after: map<string, Arg>)
    requires 0 <= i < next <= |args|
    requires ParsedUpTo(before, args, i, flags)
    requires forall k :: i < k < next ==> !IsFlag(args[k])
    requires IsFlag(args[i]) ==> after == flags[args[i].value := ValueAfter(args, i)]
    requires !IsFlag(args[i]) ==> after == flags
    ensures ParsedUpTo(before, args, next, after)
  {
    forall f ensures f in after <==> f in before || OccursBefore(args, next, f) {
      OccursExtend(args, i, next, f);
    }
    forall f | f in before && !OccursBefore(args, next, f) ensures after[f] == before[f] {
      OccursExtend(args, i, next, f);
    }
    forall j | 0 <= j < next && IsFlag(args[j]) && LastBefore(args, next, j)
      ensures args[j].value in after && after[args[j].value] == ValueAfter(args, j)
    {
      if j < i {
        assert LastBefore(args, i, j);
        assert args[i] != args[j];
      } else {
        assert j == i;
      }
    }
  }

  /**
   * `parse(args)`. A value right after a flag is consumed with it; since a
   * value is never a flag, no flag is ever skipped.
   */
  method Parse(p: ArgumentParser, args: seq<Arg>) returns (r: ArgumentParser)
    ensures Parsed(p, args, r)
  {
    var flags := p.flags;
    var i := 0;
    while i < |args|
      invariant 0 <= i <= |args|
      invariant ParsedUpTo(p.flags, args, i, flags)
      decreases |args| - i
    {
      ghost var previous := flags;
      var next := i + 1;
      if IsFlag(args[i]) {
        flags := flags[args[i].value := None];
        if i + 1 < |args| && IsValue(args[i + 1]) {
          flags := flags[args[i].value := args[i + 1]];
          next := i + 2;
        }
      }
      ParsedExtend(p.flags, args, i, next, previous, flags);
      i := next;
    }
    r := ArgumentParser(flags);
  }

  /** A flag that occurs has a last occurrence. */
  lemma {:induction false} LastOccurrence(args: seq<Arg>, n: int, f: string) returns (j: int)
    requires 0 <= n <= |args| && OccursBefore(args, n, f)
    ensures 0 <= j < n && args[j] == Some(f) && IsFlag(args[j]) && LastBefore(args, n, j)
    decreases n
  {
    if args[n - 1] == Some(f) && IsFlag(args[n - 1]) {
      j := n - 1;
    } else {
      var k :| 0 <= k < n && args[k] == Some(f) && IsFlag(args[k]);
      assert k < n - 1;
      j := LastOccurrence(args, n - 1, f);
      assert args[n - 1] != args[j];
    }
  }

  /** The description of `parse` leaves no freedom: it pins down the map entirely. */
  lemma ParsedDeterministic(p: ArgumentParser, args: seq<Arg>, x: ArgumentParser, y: ArgumentParser)
    requires Parsed(p, args, x) && Parsed(p, args, y)
    ensures x == y
  {
    forall f | f in x.flags ensures x.flags[f] == y.flags[f] {
      if OccursBefore(args, |args|, f) {
        var j := LastOccurrence(args, |args|, f);
      }
    }
  }

  /** Parsing the same arguments a second time changes nothing. */
  lemma ParseTwice(p: ArgumentParser, args: seq<Arg>, x: ArgumentParser, y: ArgumentParser)
    requires Parsed(p, args, x) && Parsed(x, args, y)
    ensures y == x
  {
    forall f | f in y.flags ensures y.flags[f] == x.flags[f] {
      if OccursBefore(args, |args|, f) {
        var j := LastOccurrence(args, |args|, f);
      }
    }
  }

  /** `numFlags()`. */
  function NumFlags(p: ArgumentParser): nat {
    |p.flags|
  }

  /** `hasFlag(flag)`. */
  predicate HasFlag(p: ArgumentParser, flag: string) {
    flag in p.flags
  }

  /** `getString(flag)`: null for a missing flag and for a flag without a value. */
  function GetString(p: ArgumentParser, flag: string): Arg {
    if flag in p.flags then p.flags[flag] else None
  }

  /** `hasValue(flag)`: `getString(flag)` is not null. */
  predicate HasValue(p: ArgumentParser, flag: string) {
    GetString(p, flag).Some?
  }

  /** `getString(flag, defaultValue)`. */
  function GetStringOr(p: ArgumentParser, flag: string, defaultValue: Arg): Arg {
    if HasValue(p, flag) then GetString(p, flag) else defaultValue
  }

  /** The distinct flags among `args`. */
  ghost function FlagsIn(args: seq<Arg>): set<string> {
    set j | 0 <= j < |args| && IsFlag(args[j]) :: args[j].value
  }

  /** After parsing into a fresh parser, one entry per distinct flag. */
  lemma FreshNumFlags(args: seq<Arg>, r: ArgumentParser)
    requires Parsed(Fresh(), args, r)
    ensures NumFlags(r) == |FlagsIn(args)|
  {
    forall f ensures f in r.flags <==> f in FlagsIn(args) {
      if f in FlagsIn(args) {
        var j :| 0 <= j < |args| && IsFlag(args[j]) && args[j].value == f;
        assert args[j] == Some(f);
      }
    }
    assert r.flags.Keys == FlagsIn(args);
  }

  /**
   * Reading back a parsed flag: it is present, and its value (or the
   * default when it has none) is the argument after its last occurrence
   * when that argument is a value.
   */
  lemma ParsedFlag(p: ArgumentParser, args: seq<Arg>, r: ArgumentParser, j: int, defaultValue: Arg)
    requires Parsed(p, args, r)
    requires 0 <= j < |args| && IsFlag(args[j]) && LastBefore(args, |args|, j)
    ensures HasFlag(r, args[j].value)
    ensures HasValue(r, args[j].value) <==> j + 1 < |args| && IsValue(args[j + 1])
    ensures GetStringOr(r, args[j].value, defaultValue)
            == if j + 1 < |args| && IsValue(args[j + 1]) then args[j + 1] else defaultValue
  {
  }

  /** A name never given as a flag is absent after parsing into a fresh parser. */
  lemma ParsedAbsent(args: seq<Arg>, r: ArgumentParser, flag: string, defaultValue: Arg)
    requires Parsed(Fresh(), args, r)
    requires forall j :: 0 <= j < |args| ==> args[j] != Some(flag)
    ensures !HasFlag(r, flag) && !HasValue(r, flag)
    ensures GetStringOr(r, flag, defaultValue) == defaultValue
  {
  }
}
