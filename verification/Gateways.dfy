/** What gateways have to do with the recorded paths: they come first among the paths over one node, and lines
    from them are used for little else. */
module Gateways {
  import opened Network
  import opened Search
  import opened Levels
  import opened Builds

  // ----- Which lines a loop sends over

  predicate StartIn(flows: seq<Flow>, heads: seq<Node>) {
    forall k | 0 <= k < |flows| :: |flows[k].route| >= 2 && flows[k].route[1] in heads
  }

  lemma StartInCons(flow: Flow, flows: seq<Flow>, heads: seq<Node>)
    requires |flow.route| >= 2 && flow.route[1] in heads && StartIn(flows, heads)
    ensures StartIn([flow] + flows, heads)
  {}

  lemma {:induction false} RetryStarts(c: Context, heads: seq<Node>)
    requires c.limit >= 1 && Heads(c.net, heads)
    ensures StartIn(Retry(c, heads).flows, heads)
    decreases |heads|, if heads == [] then 0 else Cap(c.free, Edge(CURRENT_NODE, heads[0]))
  {
    if heads != [] {
      if Attempt(c, heads[0]).NotFound? {
        RetryStarts(c, heads[1..]);
      } else {
        AttemptSound(c, heads[0]);
        AfterLowers(c, heads[0]);
        var d := c.(free := After(c, heads[0]));
        RetryStarts(d, heads);
        StartInCons(Flow(Attempt(c, heads[0]).route, Attempt(c, heads[0]).amount), Retry(d, heads).flows, heads);
      }
    }
  }

  lemma {:induction false} GatewaysFirstStarts(c: Context, heads: seq<Node>, gateways: seq<Node>)
    requires c.limit >= 1 && Heads(c.net, heads)
    ensures StartIn(GatewaysFirst(c, heads, gateways).flows, heads)
    decreases |gateways|
  {
    if gateways == [] {
      RetryStarts(c, heads);
    } else {
      RemoveFirstHeads(c.net, heads, gateways[0]);
      var first := TryOnce(c, heads, gateways[0]);
      var d, left := c.(free := first.free), RemoveFirst(heads, gateways[0]);
      GatewaysFirstStarts(d, left, gateways[1..]);
      var rest := GatewaysFirst(d, left, gateways[1..]);
      forall k | 0 <= k < |rest.flows| ensures rest.flows[k].route[1] in heads {
        RemoveFirstKeeps(heads, gateways[0], rest.flows[k].route[1]);
      }
      if first.flows != [] {
        AttemptSound(c, gateways[0]);
        StartInCons(first.flows[0], rest.flows, heads);
        assert first.flows + rest.flows == [first.flows[0]] + rest.flows;
      } else {
        assert first.flows + rest.flows == rest.flows;
      }
    }
  }

  /** Over a line along which the search fails, no run that follows sends anything. */
  lemma {:induction false} RunAvoids(c: Context, run: Run, h: Node, k: nat)
    requires c.limit >= 1 && Attempt(c, h).NotFound? && IsRun(c.net, c.limit, c.free, run) && k < |run.flows|
    ensures |run.flows[k].route| >= 2 && run.flows[k].route[1] != h
    decreases k
  {
    var flow := run.flows[0];
    if k == 0 {
      var r := flow.route;
      assert Open(c.free, r);
      if r[1] == h {
        AttemptComplete(c, h, r);
      }
    } else {
      var g := Augment(c.free, flow.route, flow.amount);
      if h in Lines(c.net, CURRENT_NODE) {
        AttemptMonotone(c, g, h);
        RunAvoids(c.(free := g), Run(run.free, run.flows[1..]), h, k - 1);
      } else {
        RouteOf(c.net, c.limit, c.free, run, k);
        var r := run.flows[k].route;
        assert Allowed(c.net, Hop(r, 0));
      }
    }
  }

  // ----- Gateways first

  /** Before a path that starts over a gateway, there are only paths that start over gateways asked earlier. */
  predicate InGatewayOrder(flows: seq<Flow>, gateways: seq<Node>) {
    forall j, k, b | 0 <= j < k < |flows| && 0 <= b < |gateways| &&
                     |flows[j].route| == 3 && |flows[k].route| == 3 && flows[k].route[1] == gateways[b] ::
      exists a | 0 <= a < b :: gateways[a] == flows[j].route[1]
  }

  /** After its only try, a gateway is not sent over any more. */
  lemma NotSentOver(c: Context, heads: seq<Node>, gateways: seq<Node>, k: nat)
    requires c.limit == 2 && Heads(c.net, heads) && gateways != []
    requires Heads(c.net, RemoveFirst(heads, gateways[0]))
    requires var d := c.(free := TryOnce(c, heads, gateways[0]).free);
      k < |GatewaysFirst(d, RemoveFirst(heads, gateways[0]), gateways[1..]).flows|
    ensures var d := c.(free := TryOnce(c, heads, gateways[0]).free);
      var flow := GatewaysFirst(d, RemoveFirst(heads, gateways[0]), gateways[1..]).flows[k];
      |flow.route| >= 2 && flow.route[1] != gateways[0]
  {
    var g := gateways[0];
    var d, left := c.(free := TryOnce(c, heads, g).free), RemoveFirst(heads, g);
    GatewaysFirstStarts(d, left, gateways[1..]);
    if g in heads {
      if Attempt(c, g).Found? {
        OneTryIsEnough(c, g);
      }
      GatewaysFirstIsRun(d, left, gateways[1..]);
      RunAvoids(d, GatewaysFirst(d, left, gateways[1..]), g, k);
    } else {
      RemoveFirstKeeps(heads, g, g);
    }
  }

  lemma {:induction false} SecondLevelOrder(c: Context, heads: seq<Node>, gateways: seq<Node>)
    requires c.limit == 2 && Heads(c.net, heads)
    ensures InGatewayOrder(GatewaysFirst(c, heads, gateways).flows, gateways)
    decreases |gateways|
  {
    if gateways != [] {
      RemoveFirstHeads(c.net, heads, gateways[0]);
      var first := TryOnce(c, heads, gateways[0]);
      var d, left := c.(free := first.free), RemoveFirst(heads, gateways[0]);
      SecondLevelOrder(d, left, gateways[1..]);
      var rest := GatewaysFirst(d, left, gateways[1..]).flows;
      forall k: nat | k < |rest| ensures |rest[k].route| >= 2 && rest[k].route[1] != gateways[0] {
        NotSentOver(c, heads, gateways, k);
      }
      if first.flows != [] {
        AttemptSound(c, gateways[0]);
      }
      OrderCons(first.flows, rest, gateways);
    }
  }

  lemma OrderCons(first: seq<Flow>, rest: seq<Flow>, gateways: seq<Node>)
    requires gateways != [] && InGatewayOrder(rest, gateways[1..])
    requires |first| <= 1 && (first != [] ==> |first[0].route| >= 2 && first[0].route[1] == gateways[0])
    requires forall k | 0 <= k < |rest| :: |rest[k].route| >= 2 && rest[k].route[1] != gateways[0]
    ensures InGatewayOrder(first + rest, gateways)
  {
    var flows := first + rest;
    forall j, k, b | 0 <= j < k < |flows| && 0 <= b < |gateways| &&
                     |flows[j].route| == 3 && |flows[k].route| == 3 && flows[k].route[1] == gateways[b]
      ensures exists a | 0 <= a < b :: gateways[a] == flows[j].route[1]
    {
      assert flows[k] == rest[k - |first|] && b > 0;
      if j < |first| {
        assert gateways[0] == flows[j].route[1];
      } else {
        assert flows[j] == rest[j - |first|] && gateways[1..][b - 1] == gateways[b];
        var a :| 0 <= a < b - 1 && gateways[1..][a] == flows[j].route[1];
        assert gateways[a + 1] == flows[j].route[1];
      }
    }
  }

  /** After the second level, nothing is sent over a single node any more. */
  lemma NoMoreOverOne(c: Context, gateways: seq<Node>, run: Run, k: nat)
    requires c.limit == 2 && k < |run.flows|
    requires IsRun(c.net, MAX_PATH_LENGTH, GatewaysFirst(c, Lines(c.net, CURRENT_NODE), gateways).free, run)
    ensures |run.flows[k].route| != 3
  {
    var d := c.(free := GatewaysFirst(c, Lines(c.net, CURRENT_NODE), gateways).free);
    var r := run.flows[k].route;
    RouteOf(c.net, MAX_PATH_LENGTH, d.free, run, k);
    forall i: nat | i + 1 < |r| ensures Cap(d.free, Hop(r, i)) > 0 {
      RunUses(c.net, MAX_PATH_LENGTH, d.free, run, k, i);
    }
    if |r| == 3 {
      assert Allowed(c.net, Hop(r, 0));
      GatewaysFirstExhausts(c, Lines(c.net, CURRENT_NODE), gateways, r[1]);
      AttemptComplete(d, r[1], r);
    }
  }

  /** Of the routes over one node that a build records, those over gateways come first, in the order in which the
      gateways are asked, and no gateway twice. */
  lemma GatewaysComeFirst(n: Net, f: Free, gateways: seq<Node>)
    ensures InGatewayOrder(Build(n, f, 1, gateways).flows, gateways)
  {
    var c := Context(n, f, 1);
    var one := BuildLevel(c, gateways);
    BuildLevelIsRun(c, gateways);
    forall k: nat | k < |one.flows| ensures |one.flows[k].route| == 2 {
      RouteOf(n, 1, f, one, k);
    }
    var d := Context(n, one.free, 2);
    var two := BuildLevel(d, gateways);
    SecondLevelOrder(d, Lines(n, CURRENT_NODE), gateways);
    var more := Build(n, two.free, 3, gateways);
    BuildIsRun(n, two.free, 3, gateways);
    forall k: nat | k < |more.flows| ensures |more.flows[k].route| != 3 {
      NoMoreOverOne(d, gateways, more, k);
    }
    assert Build(n, one.free, 2, gateways).flows == two.flows + more.flows;
    Between(one.flows, two.flows, more.flows, gateways);
  }

  lemma Between(one: seq<Flow>, two: seq<Flow>, more: seq<Flow>, gateways: seq<Node>)
    requires InGatewayOrder(two, gateways)
    requires forall k: nat | k < |one| :: |one[k].route| != 3
    requires forall k: nat | k < |more| :: |more[k].route| != 3
    ensures InGatewayOrder(one + (two + more), gateways)
  {
    var flows := one + (two + more);
    assert forall k: nat | k < |one| :: flows[k] == one[k];
    assert forall k | |one| <= k < |one| + |two| :: flows[k] == two[k - |one|];
    forall k | |one| + |two| <= k < |flows| ensures |flows[k].route| != 3 {
      assert flows[k] == more[k - |one| - |two|];
    }
  }

  /** The same for recorded paths, which are the nodes between the ends of the routes. */
  ghost predicate PathsInGatewayOrder(paths: seq<seq<Node>>, gateways: seq<Node>) {
    forall j, k, b | 0 <= j < k < |paths| && 0 <= b < |gateways| && |paths[j]| == 1 && paths[k] == [gateways[b]] ::
      exists a | 0 <= a < b :: paths[j] == [gateways[a]]
  }

  lemma PathsInOrder(flows: seq<Flow>, gateways: seq<Node>)
    requires InGatewayOrder(flows, gateways) && forall k: nat | k < |flows| :: |flows[k].route| >= 2
    ensures PathsInGatewayOrder(PathsOf(flows), gateways)
  {
    var paths := PathsOf(flows);
    PathsLength(flows);
    forall j, k, b | 0 <= j < k < |paths| && 0 <= b < |gateways| && |paths[j]| == 1 && paths[k] == [gateways[b]]
      ensures exists a | 0 <= a < b :: paths[j] == [gateways[a]]
    {
      RecordedNodes(flows, j);
      RecordedNodes(flows, k);
      assert flows[k].route[1] == paths[k][0] && flows[j].route[1] == paths[j][0];
      var a :| 0 <= a < b && gateways[a] == flows[j].route[1];
      assert paths[j] == [gateways[a]];
    }
  }

  lemma GatewayPathsComeFirst(n: Net, f: Free, gateways: seq<Node>)
    ensures PathsInGatewayOrder(PathsOf(Build(n, f, 1, gateways).flows), gateways)
  {
    hide InGatewayOrder, PathsInGatewayOrder, IsRun, Build;
    var run := Build(n, f, 1, gateways);
    GatewaysComeFirst(n, f, gateways);
    BuildIsRun(n, f, 1, gateways);
    forall k: nat | k < |run.flows| ensures |run.flows[k].route| >= 2 {
      RouteOf(n, MAX_PATH_LENGTH, f, run, k);
    }
    PathsInOrder(run.flows, gateways);
  }

  // ----- Lines from gateways

  /** What closing leaves free, if no amounts are kept but those of lines. */
  lemma ClosedExactly(n: Net, f: Free, gateways: set<Node>)
    requires forall e | e in CloseGateways(n, f, gateways) :: e.target in Lines(n, e.source)
    ensures CloseGateways(n, f, gateways).Keys == f.Keys
    ensures forall e | e in f ::
      CloseGateways(n, f, gateways)[e]
      == if e.source in gateways && e.target !in gateways && e.target != n.contractor then 0 else f[e]
  {}

  /** With the gateways' lines closed, a recorded route goes on from a gateway only to a gateway or the contractor. */
  lemma GatewaysPassOnToGateways(n: Net, limit: nat, f: Free, gateways: set<Node>, run: Run, k: nat, i: nat)
    requires IsRun(n, limit, CloseGateways(n, f, gateways), run) && k < |run.flows| && i + 1 < |run.flows[k].route|
    requires run.flows[k].route[i] in gateways
    ensures var next := run.flows[k].route[i + 1]; next in gateways || next == n.contractor
  {
    RunUses(n, limit, CloseGateways(n, f, gateways), run, k, i);
    RouteOf(n, limit, CloseGateways(n, f, gateways), run, k);
    assert Allowed(n, Hop(run.flows[k].route, i));
  }

  /** Every line of a recorded route had something free at the start. */
  lemma {:induction false} RunUses(n: Net, limit: nat, f: Free, run: Run, k: nat, i: nat)
    requires IsRun(n, limit, f, run) && k < |run.flows| && i + 1 < |run.flows[k].route|
    ensures Cap(f, Hop(run.flows[k].route, i)) > 0
    decreases k
  {
    if k > 0 {
      var flow := run.flows[0];
      RunUses(n, limit, Augment(f, flow.route, flow.amount), Run(run.free, run.flows[1..]), k - 1, i);
    }
  }

  /** A recorded path is what its route has between its ends. */
  lemma {:induction false} RecordedNodes(flows: seq<Flow>, k: nat)
    requires k < |flows| && |flows[k].route| >= 2
    ensures |PathsOf(flows)| == |flows|
    ensures PathsOf(flows)[k] == flows[k].route[1..|flows[k].route| - 1]
    decreases |flows|
  {
    PathsLength(flows);
    if k > 0 {
      RecordedNodes(flows[1..], k - 1);
    }
  }

  lemma {:induction false} PathsLength(flows: seq<Flow>)
    ensures |PathsOf(flows)| == |flows|
  {
    if flows != [] {
      PathsLength(flows[1..]);
    }
  }
}
