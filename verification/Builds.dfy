/** The restarting loop of the rebuild, the gateway-first second level, and whole builds. */
module Builds {
  import opened Network
  import opened Search
  import opened Levels

  // ----- Restart: back to the first line after every success

  /** One pass over the lines that stops at the first success. */
  ghost function FirstSuccess(c: Context, heads: seq<Node>): (res: Found)
    requires c.limit >= 1 && Heads(c.net, heads)
    ensures res.Found? ==> |res.route| >= 2 && res.route[1] in heads && Attempt(c, res.route[1]) == res
    ensures res.NotFound? ==> forall h | h in heads :: Attempt(c, h).NotFound?
  {
    if heads == [] then
      NotFound
    else if Attempt(c, heads[0]).Found? then
      AttemptSound(c, heads[0]);
      Attempt(c, heads[0])
    else
      FirstSuccess(c, heads[1..])
  }

  /** What the current node can still send over its first lines. */
  ghost function HeadSum(f: Free, heads: seq<Node>): nat {
    if heads == [] then 0 else Cap(f, Edge(CURRENT_NODE, heads[0])) + HeadSum(f, heads[1..])
  }

  lemma {:induction false} HeadSumShrinks(g: Free, f: Free, heads: seq<Node>, h: Node)
    requires AtMost(g, f)
    ensures HeadSum(g, heads) <= HeadSum(f, heads)
    ensures h in heads && Cap(g, Edge(CURRENT_NODE, h)) < Cap(f, Edge(CURRENT_NODE, h)) ==>
              HeadSum(g, heads) < HeadSum(f, heads)
  {
    if heads != [] {
      HeadSumShrinks(g, f, heads[1..], h);
    }
  }

  ghost function Restart(c: Context, heads: seq<Node>): (run: Run)
    requires c.limit >= 1 && Heads(c.net, heads)
    decreases HeadSum(c.free, heads)
  {
    var res := FirstSuccess(c, heads);
    if res.NotFound? then
      Run(c.free, [])
    else
      AfterLowers(c, res.route[1]);
      HeadSumShrinks(After(c, res.route[1]), c.free, heads, res.route[1]);
      var rest := Restart(c.(free := After(c, res.route[1])), heads);
      Run(rest.free, [Flow(res.route, res.amount)] + rest.flows)
  }

  // ----- The two loop shapes do the same

  lemma {:induction false} FirstSuccessAfterFailures(c: Context, failed: seq<Node>, heads: seq<Node>)
    requires c.limit >= 1 && Heads(c.net, failed) && Heads(c.net, heads)
    requires forall h | h in failed :: Attempt(c, h).NotFound?
    ensures Heads(c.net, failed + heads)
    ensures FirstSuccess(c, failed + heads) == FirstSuccess(c, heads)
  {
    if failed == [] {
      assert failed + heads == heads;
    } else {
      assert (failed + heads)[1..] == failed[1..] + heads;
      FirstSuccessAfterFailures(c, failed[1..], heads);
    }
  }

  lemma {:induction false} RestartIsRetry(c: Context, failed: seq<Node>, heads: seq<Node>)
    requires c.limit >= 1 && Heads(c.net, failed) && Heads(c.net, heads)
    requires forall h | h in failed :: Attempt(c, h).NotFound?
    ensures Heads(c.net, failed + heads)
    ensures Restart(c, failed + heads) == Retry(c, heads)
    decreases |heads|, if heads == [] then 0 else Cap(c.free, Edge(CURRENT_NODE, heads[0]))
  {
    FirstSuccessAfterFailures(c, failed, heads);
    if heads != [] {
      if Attempt(c, heads[0]).NotFound? {
        assert failed + heads == failed + [heads[0]] + heads[1..];
        RestartIsRetry(c, failed + [heads[0]], heads[1..]);
      } else {
        var d := c.(free := After(c, heads[0]));
        AfterLowers(c, heads[0]);
        forall h | h in failed ensures Attempt(d, h).NotFound? {
          AttemptMonotone(c, d.free, h);
        }
        RestartIsRetry(d, failed, heads);
        AttemptSound(c, heads[0]);
      }
    }
  }

  /** The same search, on the topology without the inaccessible nodes. */
  function Restricted(c: Context): Context {
    c.(net := WithoutInaccessible(c.net))
  }

  lemma {:induction false} RetryRestricted(c: Context, heads: seq<Node>)
    requires c.limit >= 1 && Heads(c.net, heads)
    ensures Heads(Restricted(c).net, Accessible(c.net, heads))
    ensures Retry(Restricted(c), Accessible(c.net, heads)) == Retry(c, heads)
    decreases |heads|, if heads == [] then 0 else Cap(c.free, Edge(CURRENT_NODE, heads[0]))
  {
    forall h | h in Accessible(c.net, heads) ensures h in Lines(Restricted(c).net, CURRENT_NODE) {
      AccessibleIn(c.net, heads, h);
      AccessibleIn(c.net, Lines(c.net, CURRENT_NODE), h);
    }
    if heads != [] {
      if heads[0] in c.net.inaccessible {
        assert Accessible(c.net, heads) == Accessible(c.net, heads[1..]);
        RetryRestricted(c, heads[1..]);
      } else {
        assert Accessible(c.net, heads) == [heads[0]] + Accessible(c.net, heads[1..]);
        FromNodeRestricted(c, [], heads[0], Cap(c.free, Edge(CURRENT_NODE, heads[0])), 1);
        if Attempt(c, heads[0]).NotFound? {
          RetryRestricted(c, heads[1..]);
        } else {
          AfterLowers(c, heads[0]);
          RetryRestricted(c.(free := After(c, heads[0])), heads);
        }
      }
    }
  }

  /** For every topology and every set of inaccessible nodes, a rebuild level records the same paths and
      leaves the same amounts as a build level on the topology without those nodes. */
  lemma RebuildIsBuildWithoutInaccessible(c: Context)
    requires c.limit >= 1
    ensures Restart(c, Lines(c.net, CURRENT_NODE))
         == Retry(Restricted(c), Lines(Restricted(c).net, CURRENT_NODE))
  {
    var heads := Lines(c.net, CURRENT_NODE);
    RestartIsRetry(c, [], heads);
    assert [] + heads == heads;
    RetryRestricted(c, heads);
  }

  // ----- The second level: one try for every gateway, then the other lines

  function RemoveFirst(s: seq<Node>, x: Node): seq<Node> {
    if s == [] then [] else if s[0] == x then s[1..] else [s[0]] + RemoveFirst(s[1..], x)
  }

  lemma {:induction false} RemoveFirstKeeps(s: seq<Node>, x: Node, y: Node)
    ensures y in RemoveFirst(s, x) ==> y in s
    ensures y in s && y != x ==> y in RemoveFirst(s, x)
    ensures x in s ==> |RemoveFirst(s, x)| == |s| - 1
    ensures x !in s ==> RemoveFirst(s, x) == s
  {
    if s != [] {
      RemoveFirstKeeps(s[1..], x, y);
    }
  }

  lemma RemoveFirstHeads(n: Net, heads: seq<Node>, x: Node)
    requires Heads(n, heads)
    ensures Heads(n, RemoveFirst(heads, x))
  {
    forall h | h in RemoveFirst(heads, x) ensures h in heads {
      RemoveFirstKeeps(heads, x, h);
    }
  }

  /** One search for one gateway, whatever comes of it. */
  ghost function TryOnce(c: Context, heads: seq<Node>, gateway: Node): Run
    requires c.limit >= 1 && Heads(c.net, heads)
  {
    if gateway in heads && Attempt(c, gateway).Found? then
      Run(After(c, gateway), [Flow(Attempt(c, gateway).route, Attempt(c, gateway).amount)])
    else
      Run(c.free, [])
  }

  ghost function GatewaysFirst(c: Context, heads: seq<Node>, gateways: seq<Node>): Run
    requires c.limit >= 1 && Heads(c.net, heads)
    decreases |gateways|
  {
    if gateways == [] then
      Retry(c, heads)
    else
      RemoveFirstHeads(c.net, heads, gateways[0]);
      var first := TryOnce(c, heads, gateways[0]);
      var rest := GatewaysFirst(c.(free := first.free), RemoveFirst(heads, gateways[0]), gateways[1..]);
      Run(rest.free, first.flows + rest.flows)
  }

  lemma TryOnceIsRun(c: Context, heads: seq<Node>, gateway: Node)
    requires c.limit >= 1 && Heads(c.net, heads)
    ensures IsRun(c.net, c.limit, c.free, TryOnce(c, heads, gateway))
  {
    if gateway in heads && Attempt(c, gateway).Found? {
      AttemptSound(c, gateway);
      assert IsRun(c.net, c.limit, After(c, gateway), Run(After(c, gateway), []));
      assert TryOnce(c, heads, gateway).flows[1..] == [];
    }
  }

  lemma {:induction false} GatewaysFirstIsRun(c: Context, heads: seq<Node>, gateways: seq<Node>)
    requires c.limit >= 1 && Heads(c.net, heads)
    ensures IsRun(c.net, c.limit, c.free, GatewaysFirst(c, heads, gateways))
    decreases |gateways|
  {
    if gateways == [] {
      RetryIsRun(c, heads);
    } else {
      RemoveFirstHeads(c.net, heads, gateways[0]);
      TryOnceIsRun(c, heads, gateways[0]);
      var first := TryOnce(c, heads, gateways[0]);
      var d, left := c.(free := first.free), RemoveFirst(heads, gateways[0]);
      GatewaysFirstIsRun(d, left, gateways[1..]);
      RunConcat(c.net, c.limit, c.free, first, GatewaysFirst(d, left, gateways[1..]));
    }
  }

  /** With at most two lines, a successful search uses its line or the one after it up. */
  lemma OneTryIsEnough(c: Context, head: Node)
    requires c.limit <= 2 && c.limit >= 1 && head in Lines(c.net, CURRENT_NODE) && Attempt(c, head).Found?
    ensures Attempt(c.(free := After(c, head)), head).NotFound?
  {
    var d := c.(free := After(c, head));
    AttemptSound(c, head);
    var r := Attempt(c, head).route;
    var i: nat :| i + 1 < |r| && Attempt(c, head).amount == Cap(c.free, Hop(r, i));
    assert Cap(d.free, Hop(r, i)) == 0;
    if Attempt(d, head).Found? {
      AttemptSound(d, head);
      ShortRoutesAgree(c.net, r, Attempt(d, head).route);
    }
  }

  lemma ShortRoutesAgree(n: Net, r: seq<Node>, s: seq<Node>)
    requires IsRoute(n, 2, r) && IsRoute(n, 2, s) && r[1] == s[1]
    ensures r == s
  {
    assert |r| == 3 ==> r[1] != n.contractor;
    assert |s| == 3 ==> s[1] != n.contractor;
  }

  lemma {:induction false} GatewaysFirstExhausts(c: Context, heads: seq<Node>, gateways: seq<Node>, h: Node)
    requires c.limit == 2 && Heads(c.net, heads) && h in heads
    ensures Attempt(c.(free := GatewaysFirst(c, heads, gateways).free), h).NotFound?
    decreases |gateways|
  {
    if gateways == [] {
      RetryExhausts(c, heads, h);
    } else {
      RemoveFirstHeads(c.net, heads, gateways[0]);
      RemoveFirstKeeps(heads, gateways[0], h);
      var d := c.(free := TryOnce(c, heads, gateways[0]).free);
      var rest := GatewaysFirst(d, RemoveFirst(heads, gateways[0]), gateways[1..]);
      if h == gateways[0] {
        if Attempt(c, h).Found? {
          OneTryIsEnough(c, h);
        }
        GatewaysFirstIsRun(d, RemoveFirst(heads, gateways[0]), gateways[1..]);
        RunShrinks(c.net, c.limit, d.free, rest);
        AttemptMonotone(d, rest.free, h);
      } else {
        GatewaysFirstExhausts(d, RemoveFirst(heads, gateways[0]), gateways[1..], h);
      }
    }
  }

  /** Although every gateway gets a single try, the second level leaves no open route of two lines. */
  lemma SecondLevelBlocks(c: Context, gateways: seq<Node>)
    requires c.limit == 2 && c.net.contractor != CURRENT_NODE
    ensures Blocked(c.net, 2, GatewaysFirst(c, Lines(c.net, CURRENT_NODE), gateways).free)
  {
    var d := c.(free := GatewaysFirst(c, Lines(c.net, CURRENT_NODE), gateways).free);
    forall h | h in Lines(c.net, CURRENT_NODE) ensures Attempt(d, h).NotFound? {
      GatewaysFirstExhausts(c, Lines(c.net, CURRENT_NODE), gateways, h);
    }
    AllFailBlocks(d);
  }

  // ----- Whole builds

  /** Lines from a gateway to anything but a gateway or the contractor count as fully used. */
  ghost function CloseGateways(n: Net, f: Free, gateways: set<Node>): Free {
    map e | e in f :: if IsClosed(n, gateways, e) then 0 else f[e]
  }

  /** The same for the lines from some of the gateways. */
  ghost function CloseSome(n: Net, f: Free, gateways: set<Node>, some: set<Node>): Free {
    map e | e in f :: if IsClosed(n, gateways, e) && e.source in some then 0 else f[e]
  }

  /** The same for the first lines from one gateway. */
  ghost function CloseFirst(n: Net, f: Free, gateways: set<Node>, gateway: Node, count: nat): Free
    requires count <= |Lines(n, gateway)|
  {
    map e | e in f ::
      if e.source == gateway && e.target in Lines(n, gateway)[..count] && e.target !in gateways &&
         e.target != n.contractor
      then 0 else f[e]
  }

  lemma CloseNext(n: Net, f: Free, gateways: set<Node>, gateway: Node, i: nat)
    requires i < |Lines(n, gateway)|
    ensures var t := Lines(n, gateway)[i];
      CloseFirst(n, f, gateways, gateway, i + 1)
      == if t !in gateways && t != n.contractor && Edge(gateway, t) in f
         then CloseFirst(n, f, gateways, gateway, i)[Edge(gateway, t) := 0]
         else CloseFirst(n, f, gateways, gateway, i)
  {
    var lines := Lines(n, gateway);
    assert lines[..i + 1] == lines[..i] + [lines[i]];
  }

  lemma CloseNone(n: Net, f: Free, gateways: set<Node>)
    ensures CloseSome(n, f, gateways, {}) == f
    ensures CloseSome(n, f, gateways, gateways) == CloseGateways(n, f, gateways)
  {}

  lemma CloseOneMore(n: Net, f: Free, gateways: set<Node>, some: set<Node>, gateway: Node)
    requires gateway in gateways
    ensures var g := CloseSome(n, f, gateways, some);
      CloseSome(n, f, gateways, some + {gateway}) == CloseFirst(n, g, gateways, gateway, |Lines(n, gateway)|)
  {
    var lines := Lines(n, gateway);
    assert lines[..|lines|] == lines;
  }

  predicate IsClosed(n: Net, gateways: set<Node>, e: Edge) {
    && e.source in gateways
    && e.target in Lines(n, e.source)
    && e.target !in gateways
    && e.target != n.contractor
  }

  /** One level of a build: the second one asks the gateways first. */
  ghost function BuildLevel(c: Context, gateways: seq<Node>): Run
    requires c.limit >= 1
  {
    if c.limit == 2 then
      GatewaysFirst(c, Lines(c.net, CURRENT_NODE), gateways)
    else
      Retry(c, Lines(c.net, CURRENT_NODE))
  }

  lemma BuildLevelIsRun(c: Context, gateways: seq<Node>)
    requires c.limit >= 1
    ensures IsRun(c.net, c.limit, c.free, BuildLevel(c, gateways))
  {
    if c.limit == 2 {
      GatewaysFirstIsRun(c, Lines(c.net, CURRENT_NODE), gateways);
    } else {
      RetryIsRun(c, Lines(c.net, CURRENT_NODE));
    }
  }

  /** The levels from `limit` up to the longest paths. */
  ghost function Build(n: Net, f: Free, limit: nat, gateways: seq<Node>): Run
    requires 1 <= limit <= MAX_PATH_LENGTH + 1
    decreases MAX_PATH_LENGTH + 1 - limit
  {
    if limit > MAX_PATH_LENGTH then
      Run(f, [])
    else
      var first := BuildLevel(Context(n, f, limit), gateways);
      var rest := Build(n, first.free, limit + 1, gateways);
      Run(rest.free, first.flows + rest.flows)
  }

  /** Every build is a run over routes of at most six lines. */
  lemma {:induction false} BuildIsRun(n: Net, f: Free, limit: nat, gateways: seq<Node>)
    requires 1 <= limit <= MAX_PATH_LENGTH + 1
    ensures IsRun(n, 6, f, Build(n, f, limit, gateways))
    decreases MAX_PATH_LENGTH + 1 - limit
  {
    if limit <= MAX_PATH_LENGTH {
      var first := BuildLevel(Context(n, f, limit), gateways);
      BuildLevelIsRun(Context(n, f, limit), gateways);
      RunLimit(n, limit, MAX_PATH_LENGTH, f, first);
      BuildIsRun(n, first.free, limit + 1, gateways);
      RunConcat(n, MAX_PATH_LENGTH, f, first, Build(n, first.free, limit + 1, gateways));
    }
  }

  ghost function RebuildLevel(c: Context): Run
    requires c.limit >= 1
  {
    Restart(c, Lines(c.net, CURRENT_NODE))
  }

  lemma RebuildLevelIsRetry(c: Context)
    requires c.limit >= 1
    ensures RebuildLevel(c) == Retry(c, Lines(c.net, CURRENT_NODE))
    ensures IsRun(c.net, c.limit, c.free, RebuildLevel(c))
  {
    RestartIsRetry(c, [], Lines(c.net, CURRENT_NODE));
    assert [] + Lines(c.net, CURRENT_NODE) == Lines(c.net, CURRENT_NODE);
    RetryIsRun(c, Lines(c.net, CURRENT_NODE));
  }

  ghost function Rebuild(n: Net, f: Free, limit: nat): Run
    requires 1 <= limit <= MAX_PATH_LENGTH + 1
    decreases MAX_PATH_LENGTH + 1 - limit
  {
    if limit > MAX_PATH_LENGTH then
      Run(f, [])
    else
      var first := RebuildLevel(Context(n, f, limit));
      var rest := Rebuild(n, first.free, limit + 1);
      Run(rest.free, first.flows + rest.flows)
  }

  /** The same for whole runs: without gateways to ask first, a rebuild from some level on is a build from that
      level on over the topology without the inaccessible nodes. */
  lemma {:induction false} RebuildIsBuild(n: Net, f: Free, limit: nat)
    requires 1 <= limit <= MAX_PATH_LENGTH + 1
    ensures Rebuild(n, f, limit) == Build(WithoutInaccessible(n), f, limit, [])
    decreases MAX_PATH_LENGTH + 1 - limit
  {
    if limit <= MAX_PATH_LENGTH {
      var c := Context(n, f, limit);
      RebuildIsBuildWithoutInaccessible(c);
      assert RebuildLevel(c) == BuildLevel(Restricted(c), []);
      RebuildIsBuild(n, RebuildLevel(c).free, limit + 1);
    }
  }

  /** No level of a rebuild adds up to more than `bound`. */
  ghost predicate RebuildFits(n: Net, f: Free, limit: nat, bound: nat)
    requires 1 <= limit <= MAX_PATH_LENGTH + 1
    decreases MAX_PATH_LENGTH + 1 - limit
  {
    limit <= MAX_PATH_LENGTH ==>
      var first := RebuildLevel(Context(n, f, limit));
      Total(first.flows) <= bound && RebuildFits(n, first.free, limit + 1, bound)
  }

  /** So is every rebuild. */
  lemma {:induction false} RebuildIsRun(n: Net, f: Free, limit: nat)
    requires 1 <= limit <= MAX_PATH_LENGTH + 1
    ensures IsRun(n, 6, f, Rebuild(n, f, limit))
    decreases MAX_PATH_LENGTH + 1 - limit
  {
    if limit <= MAX_PATH_LENGTH {
      var first := RebuildLevel(Context(n, f, limit));
      RebuildLevelIsRetry(Context(n, f, limit));
      RunLimit(n, limit, MAX_PATH_LENGTH, f, first);
      RebuildIsRun(n, first.free, limit + 1);
      RunConcat(n, MAX_PATH_LENGTH, f, first, Rebuild(n, first.free, limit + 1));
    }
  }

  /** After the last level of a build, no walk of at most six lines has something free on every line. */
  lemma {:induction false} BuildBlocks(n: Net, f: Free, limit: nat, gateways: seq<Node>)
    requires 1 <= limit <= MAX_PATH_LENGTH && n.contractor != CURRENT_NODE
    ensures Blocked(n, 6, Build(n, f, limit, gateways).free)
    decreases MAX_PATH_LENGTH - limit
  {
    var first := BuildLevel(Context(n, f, limit), gateways);
    if limit == MAX_PATH_LENGTH {
      RetryBlocks(Context(n, f, limit));
      assert Build(n, first.free, limit + 1, gateways).free == first.free;
    } else {
      BuildBlocks(n, first.free, limit + 1, gateways);
    }
  }

  lemma RebuildLevelBlocks(c: Context)
    requires c.limit >= 1 && c.net.contractor != CURRENT_NODE
    ensures Blocked(c.net, c.limit, RebuildLevel(c).free)
  {
    RebuildLevelIsRetry(c);
    RetryBlocks(c);
  }

  /** The same for a rebuild, for walks that keep off the inaccessible nodes. */
  lemma {:induction false} RebuildBlocks(n: Net, f: Free, limit: nat)
    requires 1 <= limit <= MAX_PATH_LENGTH && n.contractor != CURRENT_NODE
    ensures Blocked(n, 6, Rebuild(n, f, limit).free)
    decreases MAX_PATH_LENGTH - limit
  {
    var c := Context(n, f, limit);
    var first := RebuildLevel(c);
    if limit == MAX_PATH_LENGTH {
      RebuildLevelBlocks(c);
      assert Rebuild(n, first.free, limit + 1).free == first.free;
    } else {
      RebuildBlocks(n, first.free, limit + 1);
    }
  }

  /** Without lines of its own the current node has nothing to build with. */
  lemma {:induction false} NothingToBuild(n: Net, f: Free, limit: nat, gateways: seq<Node>)
    requires 1 <= limit <= MAX_PATH_LENGTH + 1 && Lines(n, CURRENT_NODE) == []
    ensures Build(n, f, limit, gateways) == Run(f, [])
    decreases MAX_PATH_LENGTH + 1 - limit
  {
    if limit <= MAX_PATH_LENGTH {
      if limit == 2 {
        NoHeads(Context(n, f, limit), gateways);
      }
      assert BuildLevel(Context(n, f, limit), gateways) == Run(f, []);
      NothingToBuild(n, f, limit + 1, gateways);
    }
  }

  lemma {:induction false} NoHeads(c: Context, gateways: seq<Node>)
    requires c.limit >= 1
    ensures GatewaysFirst(c, [], gateways) == Run(c.free, [])
    decreases |gateways|
  {
    if gateways != [] {
      NoHeads(c, gateways[1..]);
    }
  }

  lemma {:induction false} NothingToRebuild(n: Net, f: Free, limit: nat, bound: nat)
    requires 1 <= limit <= MAX_PATH_LENGTH + 1 && Lines(n, CURRENT_NODE) == []
    ensures Rebuild(n, f, limit) == Run(f, []) && RebuildFits(n, f, limit, bound)
    decreases MAX_PATH_LENGTH + 1 - limit
  {
    if limit <= MAX_PATH_LENGTH {
      assert RebuildLevel(Context(n, f, limit)) == Run(f, []);
      NothingToRebuild(n, f, limit + 1, bound);
    }
  }

  /** Which lines are closed has nothing to do with the inaccessible nodes. */
  lemma ClosedAlike(n: Net, m: Net, f: Free, gateways: set<Node>)
    requires n.lines == m.lines && n.contractor == m.contractor
    ensures CloseGateways(n, f, gateways) == CloseGateways(m, f, gateways)
  {
    forall e | e in f ensures IsClosed(n, gateways, e) == IsClosed(m, gateways, e) {}
  }
}
