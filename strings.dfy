/**
  The pieces of Go's `strings` package that the tool leans on: splitting on
  commas, byte-wise string ordering (as used by `sort.Strings`) and the
  append-only `strings.Builder`. Joining on commas, which the tool never calls,
  specifies splitting and states the intended printed form of the `-u` flag.
 */
module Strings {

  /** `strings.Split(s, ",")`: the text between consecutive commas, always at least one piece. */
  function Split(s: string): (r: seq<string>)
    ensures |r| >= 1
    ensures forall i | 0 <= i < |r| :: ',' !in r[i]
    ensures Join(r) == s
    decreases |s|
  {
    if s == [] then [""]
    else
      var rest := Split(s[1..]);
      if s[0] == ',' then
        assert Join([""] + rest) == "," + Join(rest) by {
          assert ([""] + rest)[1..] == rest;
        }
        assert s == [s[0]] + s[1..];
        [""] + rest
      else
        var head := [s[0]] + rest[0];
        assert ([head] + rest[1..])[1..] == rest[1..];
        assert s == [s[0]] + s[1..];
        [head] + rest[1..]
  }

  /** `strings.Join(ps, ",")`: the pieces with one comma between neighbours. */
  function Join(ps: seq<string>): string
  {
    if |ps| == 0 then ""
    else if |ps| == 1 then ps[0]
    else ps[0] + "," + Join(ps[1..])
  }

  /** Splitting a comma-free prefix off: the prefix is the first piece. */
  lemma {:induction false} SplitPrefix(x: string, y: string)
    requires ',' !in x
    ensures Split(x + "," + y) == [x] + Split(y)
    decreases |x|
  {
    if x == [] {
      assert x + "," + y == [','] + y;
      assert ([','] + y)[1..] == y;
    } else {
      assert (x + "," + y)[1..] == x[1..] + "," + y;
      assert (x + "," + y)[0] == x[0];
      SplitPrefix(x[1..], y);
      assert [x[0]] + x[1..] == x;
    }
  }

  /** A comma-free string is a single piece. */
  lemma {:induction false} SplitNoComma(x: string)
    requires ',' !in x
    ensures Split(x) == [x]
    decreases |x|
  {
    if x != [] {
      SplitNoComma(x[1..]);
      assert [x[0]] + x[1..] == x;
    }
  }

  /** Byte-wise lexicographic order of Go strings (strict). Dafny characters are
      Unicode scalar values, whose order agrees with the order of their UTF-8 bytes. */
  predicate Less(a: string, b: string)
    decreases |a|
  {
    if |a| == 0 then |b| > 0
    else if |b| == 0 then false
    else a[0] < b[0] || (a[0] == b[0] && Less(a[1..], b[1..]))
  }

  lemma {:induction false} LessIrreflexive(a: string)
    ensures !Less(a, a)
    decreases |a|
  {
    if |a| > 0 {
      LessIrreflexive(a[1..]);
    }
  }

  lemma {:induction false} LessTransitive(a: string, b: string, c: string)
    requires Less(a, b) && Less(b, c)
    ensures Less(a, c)
    decreases |a|
  {
    if |a| > 0 && |b| > 0 && |c| > 0 && a[0] == b[0] == c[0] {
      LessTransitive(a[1..], b[1..], c[1..]);
    }
  }

  lemma {:induction false} LessTotal(a: string, b: string)
    requires a != b
    ensures Less(a, b) || Less(b, a)
    decreases |a|
  {
    if |a| > 0 && |b| > 0 && a[0] == b[0] {
      assert a == [a[0]] + a[1..] && b == [b[0]] + b[1..];
      LessTotal(a[1..], b[1..]);
    }
  }

  lemma LessAsymmetric(a: string, b: string)
    requires Less(a, b)
    ensures !Less(b, a)
  {
    if Less(b, a) {
      LessTransitive(a, b, a);
      LessIrreflexive(a);
    }
  }

  /** Go's `strings.Builder`: text that only grows at the end. */
  class Builder {
    var text: string

    constructor ()
      ensures text == ""
    {
      text := "";
    }

    method WriteString(s: string)
      modifies this
      ensures text == old(text) + s
    {
      text := text + s;
    }
  }
}
