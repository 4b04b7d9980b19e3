/**
  `main`: the header line, then the block of every endpoint of the `-u` list in
  list order, and finally the safe update of the include file with that text.
  An endpoint whose collection is fatal ends the run before anything is written;
  an endpoint that is skipped adds nothing. Blocks are never merged: a host
  served by two endpoints gets a line in each of their blocks.
 */
module Sync {
  import opened Wrappers
  import opened Strings
  import opened Flags
  import opened Routers
  import opened Render
  import opened Update

  const FILE_HEADER := "# The contents of this file will be overriden to add traefik endpoints dynamically\n"

  /** How a run ends: stopped while collecting, or through the update cycle. */
  datatype RunResult = Stopped(reason: Fatal) | Finished(outcome: Outcome)

  /** What one endpoint adds to the rendered lines. */
  ghost function Contribution(c: Collected): seq<string>
  {
    if c.Hosts? then BlockLines(c.urls) else []
  }

  /** What `retrieveServicesHosts` gives for each endpoint of the list. */
  function Collections(us: seq<string>, resolve: string -> Resolution, fetch: string -> Response)
    : seq<Collected>
  {
    seq(|us|, i requires 0 <= i < |us| => ServicesHosts(us[i], resolve(us[i]), fetch))
  }

  /** The first fatal error among the endpoints that collected `cs`, if any. */
  function FirstFatal(cs: seq<Collected>): Option<Fatal>
  {
    if cs == [] then None
    else
      match FirstFatal(cs[..|cs| - 1])
      case Some(f) => Some(f)
      case None => if cs[|cs| - 1].Aborted? then Some(cs[|cs| - 1].reason) else None
  }

  /** The header, then the blocks of the endpoints that collected `cs`, in list order. */
  ghost function Lines(cs: seq<Collected>): seq<string>
  {
    if cs == [] then [FILE_HEADER] else Lines(cs[..|cs| - 1]) + Contribution(cs[|cs| - 1])
  }

  /** The lines of the rendered text, or the first fatal error. */
  ghost function RenderedLines(cs: seq<Collected>): Result<seq<string>, Fatal>
  {
    if FirstFatal(cs).Some? then Err(FirstFatal(cs).value) else Ok(Lines(cs))
  }

  /** The rendering loop of `main`: the header, then for each endpoint of the list
      the block of its map; a fatal endpoint ends the run. */
  method RenderEndpoints(urls: seq<string>, resolve: string -> Resolution, fetch: string -> Response)
    returns (r: Result<string, Fatal>)
    ensures var rendered := RenderedLines(Collections(urls, resolve, fetch));
      && (rendered.Err? ==> r == Err(rendered.error))
      && (rendered.Ok? ==> r == Ok(Concat(rendered.value)))
  {
    ghost var cs := Collections(urls, resolve, fetch);
    var builder := new Builder();
    builder.WriteString(FILE_HEADER);
    ConcatSingle(FILE_HEADER);
    for i := 0 to |urls|
      invariant FirstFatal(cs[..i]) == None
      invariant builder.text == Concat(Lines(cs[..i]))
    {
      ghost var ls := Lines(cs[..i]);
      var collected, _ := RetrieveServicesHosts(urls[i], resolve(urls[i]), fetch);
      assert collected == cs[i];
      assert cs[..i + 1] == cs[..i] + [cs[i]];
      OneMoreEndpoint(cs[..i], cs[i]);
      if collected.Aborted? {
        PrefixFatal(cs, i + 1);
        return Err(collected.reason);
      }
      if collected.Hosts? {
        AppendServicesHosts(collected.urls, builder);
        ConcatAll(ls, BlockLines(collected.urls));
      } else {
        assert ls + [] == ls;
      }
    }
    assert cs[..|urls|] == cs;
    r := Ok(builder.text);
  }

  /** `main`: render every endpoint of the `-u` list, then update the file on `server`. */
  method Run(list: UrlList, resolve: string -> Resolution, fetch: string -> Response,
             server: Server, path: string, env: Env)
    returns (result: RunResult)
    modifies server
    ensures var rendered := RenderedLines(Collections(list.urls, resolve, fetch));
      rendered.Err? ==> result == Stopped(rendered.error) && server.Snapshot() == old(server.Snapshot())
    ensures var rendered := RenderedLines(Collections(list.urls, resolve, fetch));
      rendered.Ok? ==>
        result.Finished?
        && (result.outcome, server.Snapshot()) == Cycle(old(server.Snapshot()), path, Concat(rendered.value), env)
  {
    var text := RenderEndpoints(list.urls, resolve, fetch);
    if text.Err? {
      return Stopped(text.error);
    }
    var outcome := server.UpdateFile(path, text.value, env);
    result := Finished(outcome);
  }

  /** Once a prefix of the list has a fatal endpoint, the whole list stops with that error. */
  lemma {:induction false} PrefixFatal(cs: seq<Collected>, n: nat)
    requires n <= |cs| && FirstFatal(cs[..n]).Some?
    ensures FirstFatal(cs) == FirstFatal(cs[..n])
    decreases |cs| - n
  {
    if n < |cs| {
      assert cs[..n + 1][..n] == cs[..n];
      PrefixFatal(cs, n + 1);
    } else {
      assert cs[..n] == cs;
    }
  }

  lemma {:induction false} ConcatAll(ls: seq<string>, ms: seq<string>)
    ensures Concat(ls + ms) == Concat(ls) + Concat(ms)
    decreases |ms|
  {
    if ms == [] {
      assert ls + ms == ls;
    } else {
      var init := ms[..|ms| - 1];
      var last := ms[|ms| - 1];
      assert ls + ms == (ls + init) + [last];
      assert ms == init + [last];
      ConcatAll(ls, init);
      ConcatAppend(ls + init, last);
      ConcatAppend(init, last);
      AppendAssoc(Concat(ls), Concat(init), last);
    }
  }

  /** The rendered text always begins with the header, so it is never empty. */
  lemma {:induction false} HeaderFirst(cs: seq<Collected>)
    ensures Lines(cs) != [] && Lines(cs)[0] == FILE_HEADER
    ensures FILE_HEADER <= Concat(Lines(cs))
    ensures Concat(Lines(cs)) != ""
    decreases |cs|
  {
    if cs == [] {
      ConcatSingle(FILE_HEADER);
    } else {
      var init := cs[..|cs| - 1];
      HeaderFirst(init);
      ConcatAll(Lines(init), Contribution(cs[|cs| - 1]));
    }
    assert |FILE_HEADER| > 0;
  }

  /** A run that reaches the update and has to create the file never ends as a no-op. */
  lemma FreshFileIsWritten(cs: seq<Collected>, s: State, path: string, env: Env)
    requires RenderedLines(cs).Ok? && path !in s.files
    ensures Cycle(s, path, Concat(RenderedLines(cs).value), env).0 != NoOp
  {
    HeaderFirst(cs);
    FreshFileNeverNoOp(s, path, Concat(RenderedLines(cs).value), env);
  }

  /** The run stops while collecting exactly when some endpoint is fatal. */
  lemma {:induction false} FatalIff(cs: seq<Collected>)
    ensures FirstFatal(cs).Some? <==> exists i :: 0 <= i < |cs| && cs[i].Aborted?
    decreases |cs|
  {
    if cs != [] {
      var init, c := cs[..|cs| - 1], cs[|cs| - 1];
      FatalIff(init);
      if FirstFatal(init).Some? {
        var i :| 0 <= i < |init| && init[i].Aborted?;
        assert cs[i] == init[i];
      } else if !c.Aborted? {
        forall i | 0 <= i < |cs|
          ensures !cs[i].Aborted?
        {
          if i < |init| {
            assert cs[i] == init[i];
          }
        }
      }
    }
  }

  /** The first fatal endpoint decides the run: its error is the one reported. */
  lemma {:induction false} FirstFatalWins(cs: seq<Collected>)
    requires FirstFatal(cs).Some?
    ensures exists i :: 0 <= i < |cs| && cs[i] == Aborted(FirstFatal(cs).value)
                        && forall j | 0 <= j < i :: !cs[j].Aborted?
    decreases |cs|
  {
    var init := cs[..|cs| - 1];
    if FirstFatal(init).Some? {
      FirstFatalWins(init);
      var i :| 0 <= i < |init| && init[i] == Aborted(FirstFatal(init).value)
        && forall j | 0 <= j < i :: !init[j].Aborted?;
      assert cs[i] == init[i];
      forall j | 0 <= j < i
        ensures !cs[j].Aborted?
      {
        assert cs[j] == init[j];
      }
    } else {
      FatalIff(init);
      forall j | 0 <= j < |init|
        ensures !cs[j].Aborted?
      {
        assert cs[j] == init[j];
      }
      assert cs[|init|] == Aborted(FirstFatal(cs).value);
    }
  }

  /** Endpoints are not merged: two endpoints that both serve host `h` each get their
      own block, in list order, and each block has its own line for `h`. */
  lemma NoMerging(cs: seq<Collected>, m1: map<string, string>, m2: map<string, string>, h: string)
    requires h in m1 && h in m2
    ensures FirstFatal(cs + [Hosts(m1), Hosts(m2)]) == FirstFatal(cs)
    ensures Lines(cs + [Hosts(m1), Hosts(m2)]) == Lines(cs) + BlockLines(m1) + BlockLines(m2)
    ensures var ls, all := Lines(cs), Lines(cs + [Hosts(m1), Hosts(m2)]);
      exists i, j :: |ls| <= i < |ls| + |BlockLines(m1)| <= j < |all|
        && all[i] == LocalData(h, m1[h]) && all[j] == LocalData(h, m2[h])
  {
    TwoMoreEndpoints(cs, m1, m2);
    BlockHasLine(m1, h);
    BlockHasLine(m2, h);
    InBothParts(Lines(cs), BlockLines(m1), BlockLines(m2), LocalData(h, m1[h]), LocalData(h, m2[h]));
  }

  /** With each endpoint's hosts all at its one address, as `retrieveServicesHosts`
      builds its map, the shared host's line appears exactly once in each block. */
  lemma NoMergingOnce(cs: seq<Collected>, m1: map<string, string>, m2: map<string, string>,
                      h: string, ip1: string, ip2: string)
    requires h in m1 && h in m2
    requires forall k | k in m1 :: m1[k] == ip1
    requires forall k | k in m2 :: m2[k] == ip2
    ensures var ls, all := Lines(cs), Lines(cs + [Hosts(m1), Hosts(m2)]);
      var mid := |ls| + |BlockLines(m1)|;
      exists i, j :: |ls| <= i < mid <= j < |all|
        && all[i] == LocalData(h, ip1) && all[j] == LocalData(h, ip2)
        && (forall k | |ls| <= k < mid && all[k] == LocalData(h, ip1) :: k == i)
        && (forall k | mid <= k < |all| && all[k] == LocalData(h, ip2) :: k == j)
  {
    TwoMoreEndpoints(cs, m1, m2);
    BlockLineOnce(m1, h, ip1);
    BlockLineOnce(m2, h, ip2);
    OnceInBothParts(Lines(cs), BlockLines(m1), BlockLines(m2), LocalData(h, ip1), LocalData(h, ip2));
  }

  lemma OnceInBothParts(ls: seq<string>, a: seq<string>, b: seq<string>, x: string, y: string)
    requires exists p :: 0 <= p < |a| && a[p] == x && forall j | 0 <= j < |a| && a[j] == x :: j == p
    requires exists q :: 0 <= q < |b| && b[q] == y && forall j | 0 <= j < |b| && b[j] == y :: j == q
    ensures var all, mid := ls + a + b, |ls| + |a|;
      exists i, j :: |ls| <= i < mid <= j < |all|
        && all[i] == x && all[j] == y
        && (forall k | |ls| <= k < mid && all[k] == x :: k == i)
        && (forall k | mid <= k < |all| && all[k] == y :: k == j)
  {
    var p :| 0 <= p < |a| && a[p] == x && forall j | 0 <= j < |a| && a[j] == x :: j == p;
    var q :| 0 <= q < |b| && b[q] == y && forall j | 0 <= j < |b| && b[j] == y :: j == q;
    var all := ls + a + b;
    forall k | |ls| <= k < |ls| + |a| && all[k] == x
      ensures k == |ls| + p
    {
      assert all[k] == a[k - |ls|];
    }
    forall k | |ls| + |a| <= k < |all| && all[k] == y
      ensures k == |ls| + |a| + q
    {
      assert all[k] == b[k - |ls| - |a|];
    }
    assert all[|ls| + p] == x && all[|ls| + |a| + q] == y;
  }

  lemma InBothParts(ls: seq<string>, a: seq<string>, b: seq<string>, x: string, y: string)
    requires x in a && y in b
    ensures exists i, j :: |ls| <= i < |ls| + |a| <= j < |ls + a + b| && (ls + a + b)[i] == x && (ls + a + b)[j] == y
  {
    var p :| 0 <= p < |a| && a[p] == x;
    var q :| 0 <= q < |b| && b[q] == y;
    assert (ls + a + b)[|ls| + p] == x;
    assert (ls + a + b)[|ls| + |a| + q] == y;
  }

  lemma TwoMoreEndpoints(cs: seq<Collected>, m1: map<string, string>, m2: map<string, string>)
    ensures FirstFatal(cs + [Hosts(m1), Hosts(m2)]) == FirstFatal(cs)
    ensures Lines(cs + [Hosts(m1), Hosts(m2)]) == Lines(cs) + BlockLines(m1) + BlockLines(m2)
  {
    OneMoreEndpoint(cs, Hosts(m1));
    OneMoreEndpoint(cs + [Hosts(m1)], Hosts(m2));
    assert cs + [Hosts(m1)] + [Hosts(m2)] == cs + [Hosts(m1), Hosts(m2)];
  }

  /** One more endpoint: its block is appended, and it is the first fatal one if none before was. */
  lemma OneMoreEndpoint(cs: seq<Collected>, c: Collected)
    ensures FirstFatal(cs + [c]) ==
      if FirstFatal(cs).Some? then FirstFatal(cs) else if c.Aborted? then Some(c.reason) else None
    ensures Lines(cs + [c]) == Lines(cs) + Contribution(c)
  {
    assert (cs + [c])[..|cs|] == cs;
  }
}
