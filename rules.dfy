/**
  Host extraction from a Traefik router rule. The tool searches each rule with
  the regular expression Host(SNI)?\(`(?P<url>[^/`]+)` and keeps the `url`
  group of the leftmost match. This module is a hand-written matcher for that
  single pattern, together with a declarative reading of the pattern that the
  matcher is proved against.
 */
module Rules {
  import opened Wrappers

  const HOST_OPEN := "Host(`"
  const HOST_SNI_OPEN := "HostSNI(`"

  /** A character of the class [^/`]. */
  predicate InName(c: char)
  {
    c != '/' && c != '`'
  }

  /** A string the `url` group can capture: non-empty, no slash, no backtick. */
  predicate IsHostName(h: string)
  {
    h != [] && forall i | 0 <= i < |h| :: InName(h[i])
  }

  /** The pattern matches `s` from position `p` with `h` as the `url` group:
      `Host(` or `HostSNI(`, a backtick, the name, and a closing backtick. */
  ghost predicate MatchesAt(s: string, p: int, h: string)
  {
    && 0 <= p <= |s|
    && IsHostName(h)
    && (HOST_OPEN + h + "`" <= s[p..] || HOST_SNI_OPEN + h + "`" <= s[p..])
  }

  /** The leftmost match of the pattern in `s` starts at `p` and captures `h`. */
  ghost predicate LeftmostMatch(s: string, p: int, h: string)
  {
    MatchesAt(s, p, h) && forall q, g | 0 <= q < p :: !MatchesAt(s, q, g)
  }

  /** End of the run of name characters of `s` that starts at `i`. */
  function RunEnd(s: string, i: nat): (j: nat)
    requires i <= |s|
    ensures i <= j <= |s|
    ensures forall k | i <= k < j :: InName(s[k])
    ensures j < |s| ==> !InName(s[j])
    decreases |s| - i
  {
    if i == |s| || !InName(s[i]) then i else RunEnd(s, i + 1)
  }

  /** The name that starts at `i` if the run of name characters there is non-empty
      and is closed by a backtick. */
  function Capture(s: string, i: nat): Option<string>
    requires i <= |s|
  {
    var j := RunEnd(s, i);
    if i < j < |s| && s[j] == '`' then Some(s[i..j]) else None
  }

  /** The capture of a match anchored at `p`. */
  function MatchAt(s: string, p: nat): Option<string>
    requires p <= |s|
  {
    if HOST_OPEN <= s[p..] then Capture(s, p + |HOST_OPEN|)
    else if HOST_SNI_OPEN <= s[p..] then Capture(s, p + |HOST_SNI_OPEN|)
    else None
  }

  /** The first match found trying positions `p`, `p + 1`, ... in turn. */
  function FindFrom(s: string, p: nat): (r: Option<string>)
    requires p <= |s|
    ensures r.Some? ==> IsHostName(r.value)
    decreases |s| - p
  {
    MatchAtName(s, p);
    match MatchAt(s, p)
    case Some(h) => Some(h)
    case None => if p == |s| then None else FindFrom(s, p + 1)
  }

  /** `re.FindStringSubmatch(rule)` followed by reading its `url` group: the host of
      the leftmost match, or `None` when `FindStringSubmatch` returns nil. */
  function Extract(rule: string): (r: Option<string>)
    ensures r.Some? ==> IsHostName(r.value)
  {
    FindFrom(rule, 0)
  }

  lemma MatchAtName(s: string, p: nat)
    requires p <= |s|
    ensures MatchAt(s, p).Some? ==> IsHostName(MatchAt(s, p).value)
  {
  }

  /** A name closed by a backtick is the whole run of name characters: so the name
      a match captures is determined by where it starts. */
  lemma CaptureIsRun(s: string, i: nat, h: string)
    requires i <= |s|
    requires IsHostName(h) && h + "`" <= s[i..]
    ensures Capture(s, i) == Some(h)
  {
    var j := RunEnd(s, i);
    assert forall k | 0 <= k < |h| :: s[i + k] == h[k];
    assert s[i + |h|] == '`';
    assert j == i + |h|;
    assert s[i..j] == h;
  }

  /** A name captured after an opening prefix is a match of the pattern. */
  lemma CaptureSound(s: string, p: nat, open: string, h: string)
    requires p <= |s| && open <= s[p..]
    requires Capture(s, p + |open|) == Some(h)
    ensures IsHostName(h) && open + h + "`" <= s[p..]
  {
    var i := p + |open|;
    var j := RunEnd(s, i);
    assert h == s[i..j] && s[j] == '`';
    assert s[p..][..|open| + |h| + 1] == open + h + "`" by {
      assert s[p..][..|open|] == open;
      forall k | 0 <= k < |h|
        ensures s[p..][|open| + k] == h[k]
      {
      }
    }
  }

  /** The matcher anchored at `p` finds only what the pattern matches there. */
  lemma MatchAtSound(s: string, p: nat, h: string)
    requires p <= |s| && MatchAt(s, p) == Some(h)
    ensures MatchesAt(s, p, h)
  {
    if HOST_OPEN <= s[p..] {
      CaptureSound(s, p, HOST_OPEN, h);
    } else {
      CaptureSound(s, p, HOST_SNI_OPEN, h);
    }
  }

  /** The matcher anchored at `p` finds every match of the pattern there. */
  lemma MatchAtComplete(s: string, p: nat, h: string)
    requires MatchesAt(s, p, h)
    ensures MatchAt(s, p) == Some(h)
  {
    if HOST_OPEN + h + "`" <= s[p..] {
      assert HOST_OPEN <= s[p..];
      assert h + "`" <= s[p + |HOST_OPEN|..];
      CaptureIsRun(s, p + |HOST_OPEN|, h);
    } else {
      assert HOST_SNI_OPEN <= s[p..];
      assert s[p..][4] == 'S';
      assert !(HOST_OPEN <= s[p..]);
      assert h + "`" <= s[p + |HOST_SNI_OPEN|..];
      CaptureIsRun(s, p + |HOST_SNI_OPEN|, h);
    }
  }

  /** The matcher anchored at `p` agrees with the pattern, in both directions. */
  lemma MatchAtSpec(s: string, p: nat, h: string)
    requires p <= |s|
    ensures MatchAt(s, p) == Some(h) <==> MatchesAt(s, p, h)
  {
    if MatchAt(s, p) == Some(h) {
      MatchAtSound(s, p, h);
    }
    if MatchesAt(s, p, h) {
      MatchAtComplete(s, p, h);
    }
  }

  lemma {:induction false} FindFromSpec(s: string, p: nat, h: string)
    requires p <= |s|
    requires forall q, g | 0 <= q < p :: !MatchesAt(s, q, g)
    ensures FindFrom(s, p) == Some(h) <==> exists k :: LeftmostMatch(s, k, h)
    decreases |s| - p
  {
    MatchAtSpec(s, p, h);
    match MatchAt(s, p)
    case Some(g) =>
      MatchAtSpec(s, p, g);
      assert LeftmostMatch(s, p, g);
      if h != g {
        if k :| LeftmostMatch(s, k, h) {
          LeftmostUnique(s, k, h, p, g);
        }
      } else {
        assert LeftmostMatch(s, p, h);
      }
    case None =>
      forall g
        ensures !MatchesAt(s, p, g)
      {
        MatchAtSpec(s, p, g);
      }
      if p < |s| {
        FindFromSpec(s, p + 1, h);
      }
  }

  /** Two leftmost matches are the same match. */
  lemma LeftmostUnique(s: string, p: int, h: string, q: int, g: string)
    requires LeftmostMatch(s, p, h) && LeftmostMatch(s, q, g)
    ensures p == q && h == g
  {
    if p == q {
      MatchAtSpec(s, p, h);
      MatchAtSpec(s, p, g);
    }
  }

  /** `Extract` returns exactly the `url` group of the leftmost match of the pattern. */
  lemma ExtractSpec(rule: string, h: string)
    ensures Extract(rule) == Some(h) <==> exists p :: LeftmostMatch(rule, p, h)
  {
    FindFromSpec(rule, 0, h);
  }

  /** `Extract` fails exactly when the pattern matches nowhere in the rule. */
  lemma ExtractNoneSpec(rule: string)
    ensures Extract(rule) == None <==> forall p, h :: !MatchesAt(rule, p, h)
  {
    if Extract(rule) == None {
      forall p, h
        ensures !MatchesAt(rule, p, h)
      {
        if MatchesAt(rule, p, h) {
          var p0 := EarliestMatch(rule, p, h);
          var h0 :| LeftmostMatch(rule, p0, h0);
          ExtractSpec(rule, h0);
        }
      }
    } else {
      var h := Extract(rule).value;
      ExtractSpec(rule, h);
    }
  }

  /** If the pattern matches somewhere at or before `p`, it has a leftmost match. */
  lemma {:induction false} EarliestMatch(s: string, p: int, h: string) returns (p0: int)
    requires MatchesAt(s, p, h)
    ensures 0 <= p0 <= p && exists g :: LeftmostMatch(s, p0, g)
    decreases p
  {
    if exists q, g :: 0 <= q < p && MatchesAt(s, q, g) {
      var q, g :| 0 <= q < p && MatchesAt(s, q, g);
      p0 := EarliestMatch(s, q, g);
    } else {
      p0 := p;
      assert LeftmostMatch(s, p, h);
    }
  }

  /** The two rule spellings the pattern targets give back their host. */
  lemma ExtractHostRule(h: string)
    requires IsHostName(h)
    ensures Extract("Host(`" + h + "`)") == Some(h)
    ensures Extract("HostSNI(`" + h + "`)") == Some(h)
  {
    var r1 := "Host(`" + h + "`)";
    var r2 := "HostSNI(`" + h + "`)";
    assert HOST_OPEN + h + "`" <= r1[0..];
    assert HOST_SNI_OPEN + h + "`" <= r2[0..];
    assert LeftmostMatch(r1, 0, h);
    assert LeftmostMatch(r2, 0, h);
    ExtractSpec(r1, h);
    ExtractSpec(r2, h);
  }

  /** Without the letter `H` no position can start a match. */
  lemma {:induction false} NoHostNoMatch(s: string, p: nat)
    requires p <= |s|
    requires forall i | p <= i < |s| :: s[i] != 'H'
    ensures FindFrom(s, p) == None
    decreases |s| - p
  {
    assert !(HOST_OPEN <= s[p..]) && !(HOST_SNI_OPEN <= s[p..]) by {
      if p < |s| {
        assert s[p..][0] == s[p];
      }
    }
    if p < |s| {
      NoHostNoMatch(s, p + 1);
    }
  }

  /** A rule without the `Host(` predicate, such as a path-prefix rule, does not match. */
  lemma PathRuleDoesNotMatch()
    ensures Extract("PathPrefix(`/api`)") == None
  {
    NoHostNoMatch("PathPrefix(`/api`)", 0);
  }
}
