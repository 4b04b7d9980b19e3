/**
  Rendering one endpoint's hosts as Unbound `local-data` records
  (`appendServicesHostsToBuilder`): the keys of the map are collected, sorted
  with `sort.Strings`, and written one line each after a comment naming the
  address of the smallest key.
 */
module Render {
  import opened Strings

  /** Non-decreasing in the byte-wise order, as `sort.Strings` leaves a slice. */
  predicate Sorted(s: seq<string>)
  {
    forall i, j | 0 <= i < j < |s| :: !Less(s[j], s[i])
  }

  /** Strictly ascending: sorted and without repetitions. */
  predicate StrictlySorted(s: seq<string>)
  {
    forall i, j | 0 <= i < j < |s| :: Less(s[i], s[j])
  }

  predicate Distinct(s: seq<string>)
  {
    forall i, j | 0 <= i < j < |s| :: s[i] != s[j]
  }

  /** `x` placed before the first element that is not smaller than it. */
  function Insert(s: seq<string>, x: string): (r: seq<string>)
    requires Sorted(s)
    ensures Sorted(r)
    ensures multiset(r) == multiset(s) + multiset{x}
  {
    if s == [] then [x]
    else if !Less(s[0], x) then
      InsertFrontSorted(s, x);
      [x] + s
    else
      var rest := Insert(s[1..], x);
      assert s == [s[0]] + s[1..];
      forall y | y in rest
        ensures !Less(y, s[0])
      {
        assert y in multiset(rest);
        if y == x {
          LessAsymmetric(s[0], x);
        } else {
          assert y in s[1..];
          var j :| 0 <= j < |s[1..]| && s[1..][j] == y;
          assert s[j + 1] == y;
        }
      }
      [s[0]] + rest
  }

  lemma InsertFrontSorted(s: seq<string>, x: string)
    requires Sorted(s) && s != [] && !Less(s[0], x)
    ensures Sorted([x] + s)
  {
    forall j | 0 <= j < |s|
      ensures !Less(s[j], x)
    {
      if Less(s[j], x) {
        if x == s[0] {
        } else {
          LessTotal(x, s[0]);
          LessTransitive(s[j], x, s[0]);
        }
      }
    }
  }

  /** `sort.Strings`: the same strings in non-decreasing order. */
  method SortStrings(keys: seq<string>) returns (sorted: seq<string>)
    ensures Sorted(sorted)
    ensures multiset(sorted) == multiset(keys)
  {
    sorted := [];
    for i := 0 to |keys|
      invariant Sorted(sorted)
      invariant multiset(sorted) == multiset(keys[..i])
    {
      assert keys[..i + 1] == keys[..i] + [keys[i]];
      sorted := Insert(sorted, keys[i]);
    }
    assert keys[..|keys|] == keys;
  }

  /** The keys of the map, appended one by one in the map's iteration order: every
      key once, in whatever order the map hands them out. */
  method CollectKeys(urls: map<string, string>) returns (keys: seq<string>)
    ensures forall k :: k in keys <==> k in urls
    ensures Distinct(keys)
  {
    keys := [];
    var rest := urls.Keys;
    while rest != {}
      invariant rest <= urls.Keys
      invariant forall k :: k in keys <==> k in urls && k !in rest
      invariant Distinct(keys)
      decreases rest
    {
      var k :| k in rest;
      keys := keys + [k];
      rest := rest - {k};
    }
  }

  /** `m` is the element of `keys` below all the others. */
  predicate IsLeast(keys: set<string>, m: string)
  {
    m in keys && forall k | k in keys && k != m :: Less(m, k)
  }

  lemma {:induction false} LeastExists(keys: set<string>)
    requires keys != {}
    ensures exists m :: IsLeast(keys, m)
    decreases keys
  {
    var x :| x in keys;
    if keys == {x} {
      assert IsLeast(keys, x);
    } else {
      LeastExists(keys - {x});
      var m :| IsLeast(keys - {x}, m);
      LeastExtend(keys, x, m);
    }
  }

  lemma LeastExtend(keys: set<string>, x: string, m: string)
    requires x in keys && IsLeast(keys - {x}, m)
    ensures IsLeast(keys, x) || IsLeast(keys, m)
  {
    LessTotal(x, m);
    if Less(x, m) {
      forall k | k in keys && k != x
        ensures Less(x, k)
      {
        if k != m {
          assert k in keys - {x};
          LessTransitive(x, m, k);
        }
      }
      assert IsLeast(keys, x);
    } else {
      forall k | k in keys && k != m
        ensures Less(m, k)
      {
        if k != x {
          assert k in keys - {x};
        }
      }
      assert IsLeast(keys, m);
    }
  }

  /** The smallest of a non-empty set of strings. */
  ghost function Least(keys: set<string>): (m: string)
    requires keys != {}
    ensures m in keys
    ensures forall k | k in keys && k != m :: Less(m, k)
  {
    LeastExists(keys);
    var m :| IsLeast(keys, m);
    m
  }

  /** The keys in strictly ascending order: the one order the rendered block can have. */
  ghost function SortedKeys(keys: set<string>): (ks: seq<string>)
    ensures StrictlySorted(ks)
    ensures forall k :: k in ks <==> k in keys
    ensures |ks| == |keys|
    decreases keys
  {
    if keys == {} then []
    else
      var m := Least(keys);
      var rest := SortedKeys(keys - {m});
      assert forall j | 0 <= j < |rest| :: Less(m, rest[j]) by {
        forall j | 0 <= j < |rest|
          ensures Less(m, rest[j])
        {
          assert rest[j] in keys - {m};
        }
      }
      [m] + rest
  }

  /** Strictly ascending orders of the same set are equal. */
  lemma {:induction false} StrictlySortedUnique(a: seq<string>, b: seq<string>)
    requires StrictlySorted(a) && StrictlySorted(b)
    requires forall x :: x in a <==> x in b
    ensures a == b
    decreases |a|
  {
    EmptyMembers(a, b);
    if a != [] {
      assert b[0] in a && a[0] in b;
      if a[0] != b[0] {
        var i :| 0 <= i < |a| && a[i] == b[0];
        var j :| 0 <= j < |b| && b[j] == a[0];
        assert Less(a[0], b[0]) && Less(b[0], a[0]);
        LessAsymmetric(a[0], b[0]);
      }
      forall x
        ensures x in a[1..] <==> x in b[1..]
      {
        TailMembers(a, x);
        TailMembers(b, x);
      }
      StrictlySortedUnique(a[1..], b[1..]);
      assert a == [a[0]] + a[1..] && b == [b[0]] + b[1..];
    }
  }

  lemma EmptyMembers(a: seq<string>, b: seq<string>)
    requires forall x :: x in a <==> x in b
    ensures a == [] <==> b == []
  {
    if a != [] {
      assert a[0] in b;
    }
    if b != [] {
      assert b[0] in a;
    }
  }

  lemma TailMembers(a: seq<string>, x: string)
    requires StrictlySorted(a) && a != []
    ensures x in a[1..] <==> x in a && x != a[0]
  {
    if x in a[1..] {
      var j :| 0 <= j < |a[1..]| && a[1..][j] == x;
      assert Less(a[0], a[j + 1]);
      LessIrreflexive(a[0]);
    }
    if x in a && x != a[0] {
      var j :| 0 <= j < |a| && a[j] == x;
      assert a[1..][j - 1] == x;
    }
  }

  /** Distinct keys sorted by `sort.Strings` are strictly ascending, hence the one
      sorted order of the key set. */
  lemma SortedDistinct(keys: seq<string>, sorted: seq<string>, all: set<string>)
    requires Distinct(keys) && (forall k :: k in keys <==> k in all)
    requires Sorted(sorted) && multiset(sorted) == multiset(keys)
    ensures sorted == SortedKeys(all)
  {
    forall x
      ensures x in sorted <==> x in keys
    {
      assert x in sorted <==> x in multiset(sorted);
      assert x in keys <==> x in multiset(keys);
    }
    forall i, j | 0 <= i < j < |sorted|
      ensures Less(sorted[i], sorted[j])
    {
      if sorted[i] == sorted[j] {
        DistinctCount(keys, sorted[i]);
        assert multiset(sorted)[sorted[i]] >= 2 by {
          CountTwo(sorted, i, j);
        }
      } else {
        LessTotal(sorted[i], sorted[j]);
      }
    }
    StrictlySortedUnique(sorted, SortedKeys(all));
  }

  lemma {:induction false} DistinctCount(s: seq<string>, x: string)
    requires Distinct(s)
    ensures multiset(s)[x] <= 1
    decreases |s|
  {
    if s != [] {
      assert s == [s[0]] + s[1..];
      assert Distinct(s[1..]) by {
        forall i, j | 0 <= i < j < |s[1..]|
          ensures s[1..][i] != s[1..][j]
        {
          assert s[1..][i] == s[i + 1] && s[1..][j] == s[j + 1];
        }
      }
      DistinctCount(s[1..], x);
      if x == s[0] {
        assert x !in s[1..];
      }
    }
  }

  lemma CountTwo(s: seq<string>, i: int, j: int)
    requires 0 <= i < j < |s| && s[i] == s[j]
    ensures multiset(s)[s[i]] >= 2
  {
    assert s == s[..j] + [s[j]] + s[j + 1..];
    assert s[..j] == s[..i] + [s[i]] + s[i + 1..j];
    assert multiset(s[..j])[s[i]] >= 1;
  }

  /** `# Endpoints extracted from <ip>`. */
  function Attribution(ip: string): string
  {
    "# Endpoints extracted from " + ip + "\n"
  }

  /** `local-data: "<host> A <ip>"`. */
  function LocalData(host: string, ip: string): string
  {
    "local-data: \"" + host + " A " + ip + "\"\n"
  }

  /** Lines written one after the other. */
  function Concat(lines: seq<string>): string
  {
    if lines == [] then "" else Concat(lines[..|lines| - 1]) + lines[|lines| - 1]
  }

  /** The `local-data` line of each of `ks`, in that order. */
  function KeyLines(ks: seq<string>, urls: map<string, string>): (r: seq<string>)
    requires forall i | 0 <= i < |ks| :: ks[i] in urls
    ensures |r| == |ks|
  {
    seq(|ks|, i requires 0 <= i < |ks| => LocalData(ks[i], urls[ks[i]]))
  }

  /** The attribution comment for the first of `ks`, then the line of each of them. */
  function BlockLinesOf(ks: seq<string>, urls: map<string, string>): seq<string>
    requires forall i | 0 <= i < |ks| :: ks[i] in urls
  {
    if ks == [] then [] else [Attribution(urls[ks[0]])] + KeyLines(ks, urls)
  }

  /** The lines `appendServicesHostsToBuilder` writes for one endpoint's map. */
  ghost function BlockLines(urls: map<string, string>): seq<string>
  {
    BlockLinesOf(SortedKeys(urls.Keys), urls)
  }

  /** The text `appendServicesHostsToBuilder` adds for one endpoint's map. */
  ghost function Block(urls: map<string, string>): string
  {
    Concat(BlockLines(urls))
  }

  /** `appendServicesHostsToBuilder`: whatever order the keys come out of the map in,
      the builder gains exactly `Block(urls)`. */
  method AppendServicesHosts(urls: map<string, string>, builder: Builder)
    modifies builder
    ensures builder.text == old(builder.text) + Block(urls)
  {
    var keys := CollectKeys(urls);
    var sorted := SortStrings(keys);
    SortedDistinct(keys, sorted, urls.Keys);
    WriteBlock(sorted, urls, builder);
  }

  /** The writing loop of `appendServicesHostsToBuilder` over the sorted keys. */
  method WriteBlock(keys: seq<string>, urls: map<string, string>, builder: Builder)
    requires forall n | 0 <= n < |keys| :: keys[n] in urls
    modifies builder
    ensures builder.text == old(builder.text) + Concat(BlockLinesOf(keys, urls))
  {
    for i := 0 to |keys|
      invariant builder.text == old(builder.text) + Concat(BlockLinesOf(keys[..i], urls))
    {
      ghost var done := Concat(BlockLinesOf(keys[..i], urls));
      BlockTextStep(keys, i, urls);
      var line := LocalData(keys[i], urls[keys[i]]);
      if i == 0 {
        var header := Attribution(urls[keys[i]]);
        builder.WriteString(header);
        builder.WriteString(line);
        assert old(builder.text) + done == old(builder.text);
        AppendAssoc(old(builder.text), header, line);
      } else {
        builder.WriteString(line);
        AppendAssoc(old(builder.text), done, line);
      }
    }
    assert keys[..|keys|] == keys;
  }

  /** The text of the block grows by the comment and the first line, then by one line per key. */
  lemma BlockTextStep(keys: seq<string>, i: nat, urls: map<string, string>)
    requires forall n | 0 <= n < |keys| :: keys[n] in urls
    requires i < |keys|
    ensures i == 0 ==> Concat(BlockLinesOf(keys[..i], urls)) == ""
    ensures Concat(BlockLinesOf(keys[..i + 1], urls)) ==
      if i == 0 then Attribution(urls[keys[i]]) + LocalData(keys[i], urls[keys[i]])
      else Concat(BlockLinesOf(keys[..i], urls)) + LocalData(keys[i], urls[keys[i]])
  {
    if i == 0 {
      BlockTextFirst(keys, urls);
    } else {
      BlockTextNext(keys, i, urls);
    }
  }

  lemma BlockTextFirst(keys: seq<string>, urls: map<string, string>)
    requires forall n | 0 <= n < |keys| :: keys[n] in urls
    requires 0 < |keys|
    ensures Concat(BlockLinesOf(keys[..0], urls)) == ""
    ensures Concat(BlockLinesOf(keys[..1], urls)) == Attribution(urls[keys[0]]) + LocalData(keys[0], urls[keys[0]])
  {
    var header, line := Attribution(urls[keys[0]]), LocalData(keys[0], urls[keys[0]]);
    assert keys[..1] == [keys[0]];
    assert keys[..0] == [];
    assert KeyLines([keys[0]], urls) == [line];
    assert BlockLinesOf(keys[..1], urls) == [header] + [line];
    ConcatSingle(header);
    ConcatAppend([header], line);
  }

  lemma BlockTextNext(keys: seq<string>, i: nat, urls: map<string, string>)
    requires forall n | 0 <= n < |keys| :: keys[n] in urls
    requires 0 < i < |keys|
    ensures Concat(BlockLinesOf(keys[..i + 1], urls)) == Concat(BlockLinesOf(keys[..i], urls)) + LocalData(keys[i], urls[keys[i]])
  {
    var line := LocalData(keys[i], urls[keys[i]]);
    assert keys[..i + 1][0] == keys[..i][0];
    assert KeyLines(keys[..i + 1], urls) == KeyLines(keys[..i], urls) + [line];
    assert BlockLinesOf(keys[..i + 1], urls) == BlockLinesOf(keys[..i], urls) + [line];
    ConcatAppend(BlockLinesOf(keys[..i], urls), line);
  }

  lemma ConcatSingle(x: string)
    ensures Concat([x]) == x
  {
    ConcatAppend([], x);
    assert [] + [x] == [x];
    assert "" + x == x;
  }

  lemma AppendAssoc(a: string, b: string, c: string)
    ensures a + b + c == a + (b + c)
  {
  }

  lemma ConcatAppend(lines: seq<string>, line: string)
    ensures Concat(lines + [line]) == Concat(lines) + line
  {
    assert (lines + [line])[..|lines|] == lines;
  }

  /** The smallest key comes first in the sorted order. */
  lemma LeastFirst(keys: set<string>)
    requires keys != {}
    ensures SortedKeys(keys) != [] && SortedKeys(keys)[0] == Least(keys)
  {
    var ks := SortedKeys(keys);
    assert Least(keys) in ks;
    forall k | k in keys && k != ks[0]
      ensures Less(ks[0], k)
    {
      var j :| 0 <= j < |ks| && ks[j] == k;
    }
    MinimumUnique(keys, ks[0], Least(keys));
  }

  /** A set has at most one element smaller than all the others. */
  lemma MinimumUnique(keys: set<string>, a: string, b: string)
    requires a in keys && forall k | k in keys && k != a :: Less(a, k)
    requires b in keys && forall k | k in keys && k != b :: Less(b, k)
    ensures a == b
  {
    if a != b {
      LessAsymmetric(a, b);
    }
  }

  /** An empty map writes nothing at all, not even the comment. */
  lemma BlockEmpty(urls: map<string, string>)
    ensures urls == map[] <==> BlockLines(urls) == []
    ensures urls == map[] ==> Block(urls) == ""
  {
  }

  /** A non-empty map writes the comment with the address of the smallest key and
      then one `local-data` line per key, the keys strictly ascending: one line more
      than there are keys. */
  lemma BlockShape(urls: map<string, string>)
    requires urls != map[]
    ensures var lines, ks := BlockLines(urls), SortedKeys(urls.Keys);
      && |lines| == |urls| + 1
      && lines[0] == Attribution(urls[Least(urls.Keys)])
      && (forall i | 1 <= i < |lines| :: ks[i - 1] in urls && lines[i] == LocalData(ks[i - 1], urls[ks[i - 1]]))
      && (forall i, j | 0 <= i < j < |ks| :: Less(ks[i], ks[j]))
      && (forall k :: k in urls <==> k in ks)
  {
    LeastFirst(urls.Keys);
  }

  /** Every key has its `local-data` line in its endpoint's block. */
  lemma BlockHasLine(urls: map<string, string>, k: string)
    requires k in urls
    ensures LocalData(k, urls[k]) in BlockLines(urls)
  {
    var ks := SortedKeys(urls.Keys);
    assert k in ks;
    var i :| 0 <= i < |ks| && ks[i] == k;
    assert BlockLines(urls)[i + 1] == LocalData(k, urls[k]);
  }

  /** Different hosts with the same address give different `local-data` lines. */
  lemma LocalDataInjective(k: string, h: string, ip: string)
    ensures LocalData(k, ip) == LocalData(h, ip) ==> k == h
  {
    if LocalData(k, ip) == LocalData(h, ip) {
      var open := "local-data: \"";
      var line := LocalData(k, ip);
      assert |k| == |h|;
      assert line[|open|..|open| + |k|] == k;
      assert LocalData(h, ip)[|open|..|open| + |h|] == h;
    }
  }

  /** The comment line is never a `local-data` line. */
  lemma AttributionIsNotLocalData(ip: string, h: string, ip2: string)
    ensures Attribution(ip) != LocalData(h, ip2)
  {
    assert Attribution(ip)[0] == '#';
    assert LocalData(h, ip2)[0] == 'l';
  }

  /** A map whose every host has the one address `ip`, as each endpoint's map has,
      writes the line of each of its hosts exactly once. */
  lemma BlockLineOnce(urls: map<string, string>, h: string, ip: string)
    requires h in urls
    requires forall k | k in urls :: urls[k] == ip
    ensures var ls := BlockLines(urls);
      exists i :: 0 <= i < |ls| && ls[i] == LocalData(h, ip)
        && forall j | 0 <= j < |ls| && ls[j] == LocalData(h, ip) :: j == i
  {
    var ls, ks := BlockLines(urls), SortedKeys(urls.Keys);
    BlockShape(urls);
    var p :| 0 <= p < |ks| && ks[p] == h;
    assert ls[p + 1] == LocalData(h, ip);
    forall j | 0 <= j < |ls| && ls[j] == LocalData(h, ip)
      ensures j == p + 1
    {
      if j == 0 {
        AttributionIsNotLocalData(urls[Least(urls.Keys)], h, ip);
      } else {
        LocalDataInjective(ks[j - 1], h, ip);
        assert ks[j - 1] == h;
        if j - 1 != p {
          LessIrreflexive(h);
        }
      }
    }
  }
}
