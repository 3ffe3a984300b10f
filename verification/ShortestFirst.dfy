/** Building level by level records the shortest paths first, and only paths that visit no node twice,
    even in a topology that has lines from a node to itself. */
module ShortestFirst {
  import opened Network
  import opened Search
  import opened Levels
  import opened Builds

  /** When nothing shorter is open, an open route has full length and visits no node twice. */
  lemma OpenRouteIsShortest(n: Net, limit: nat, f: Free, r: seq<Node>)
    requires limit >= 1 && n.contractor != CURRENT_NODE
    requires Blocked(n, limit - 1, f) && IsRoute(n, limit, r) && Open(f, r)
    ensures |r| == limit + 1 && Distinct(r)
  {
    var s := Shortcut(n, f, r);
    assert Reaches(n, limit - 1, r) <==> |r| <= limit;
    assert Reaches(n, limit - 1, s) <==> |s| <= limit;
  }

  /** The routes of a run, each with exactly `length` lines and without a repeated node. */
  predicate AllSimple(flows: seq<Flow>, length: nat) {
    forall k | 0 <= k < |flows| :: |flows[k].route| == length + 1 && Distinct(flows[k].route)
  }

  lemma {:induction false} LevelIsSimple(n: Net, limit: nat, f: Free, run: Run)
    requires limit >= 1 && n.contractor != CURRENT_NODE
    requires Blocked(n, limit - 1, f) && IsRun(n, limit, f, run)
    ensures AllSimple(run.flows, limit)
    decreases run.flows
  {
    if run.flows != [] {
      var flow := run.flows[0];
      assert Open(f, flow.route);
      OpenRouteIsShortest(n, limit, f, flow.route);
      var g := Augment(f, flow.route, flow.amount);
      BlockedStays(n, limit - 1, f, g);
      LevelIsSimple(n, limit, g, Run(run.free, run.flows[1..]));
      forall k | 0 <= k < |run.flows| ensures |run.flows[k].route| == limit + 1 && Distinct(run.flows[k].route) {
        assert k > 0 ==> run.flows[k] == run.flows[1..][k - 1];
      }
    }
  }

  lemma BlockedStays(n: Net, limit: nat, f: Free, g: Free)
    requires Blocked(n, limit, f) && AtMost(g, f)
    ensures Blocked(n, limit, g)
  {
    forall w | Reaches(n, limit, w) ensures !Open(g, w) {
      var i: nat :| i + 1 < |w| && Cap(f, Hop(w, i)) == 0;
      assert Cap(g, Hop(w, i)) == 0;
    }
  }

  /** Recorded in the order of their lengths, at least `least` lines each, none with a repeated node. */
  predicate OrderedByLength(flows: seq<Flow>, least: nat) {
    && (forall k | 0 <= k < |flows| :: |flows[k].route| >= least + 1 && Distinct(flows[k].route))
    && (forall j, k | 0 <= j < k < |flows| :: |flows[j].route| <= |flows[k].route|)
  }

  lemma LevelThenLonger(a: seq<Flow>, b: seq<Flow>, length: nat)
    requires AllSimple(a, length) && OrderedByLength(b, length + 1)
    ensures OrderedByLength(a + b, length)
  {
    var s := a + b;
    forall k | 0 <= k < |s| ensures |s[k].route| >= length + 1 && Distinct(s[k].route) {
      assert k >= |a| ==> s[k] == b[k - |a|];
    }
    forall j, k | 0 <= j < k < |s| ensures |s[j].route| <= |s[k].route| {
      if k >= |a| {
        assert s[k] == b[k - |a|];
        assert j >= |a| ==> s[j] == b[j - |a|];
      }
    }
  }

  /** One level keeps up what the next one builds on. */
  lemma BuildLevelStep(c: Context, gateways: seq<Node>)
    requires c.limit >= 1 && c.net.contractor != CURRENT_NODE && Blocked(c.net, c.limit - 1, c.free)
    ensures AllSimple(BuildLevel(c, gateways).flows, c.limit)
    ensures Blocked(c.net, c.limit, BuildLevel(c, gateways).free)
  {
    BuildLevelIsRun(c, gateways);
    LevelIsSimple(c.net, c.limit, c.free, BuildLevel(c, gateways));
    if c.limit == 2 {
      SecondLevelBlocks(c, gateways);
    } else {
      RetryBlocks(c);
    }
  }

  /** A build from the first level on needs no assumption: nothing is shorter than one line. */
  lemma {:induction false} BuildIsShortestFirst(n: Net, f: Free, limit: nat, gateways: seq<Node>)
    requires 1 <= limit <= MAX_PATH_LENGTH + 1 && n.contractor != CURRENT_NODE
    requires limit == 1 || Blocked(n, limit - 1, f)
    ensures OrderedByLength(Build(n, f, limit, gateways).flows, limit)
    decreases MAX_PATH_LENGTH + 1 - limit
  {
    if limit <= MAX_PATH_LENGTH {
      var c := Context(n, f, limit);
      var first := BuildLevel(c, gateways);
      BuildLevelStep(c, gateways);
      BuildIsShortestFirst(n, first.free, limit + 1, gateways);
      LevelThenLonger(first.flows, Build(n, first.free, limit + 1, gateways).flows, limit);
    }
  }

  /** From the third level on the same holds for a rebuild. */
  lemma {:induction false} RebuildIsShortestFirst(n: Net, f: Free, limit: nat)
    requires 3 <= limit <= MAX_PATH_LENGTH + 1 && n.contractor != CURRENT_NODE
    requires Blocked(n, limit - 1, f)
    ensures OrderedByLength(Rebuild(n, f, limit).flows, limit)
    decreases MAX_PATH_LENGTH + 1 - limit
  {
    if limit <= MAX_PATH_LENGTH {
      var c := Context(n, f, limit);
      var first := RebuildLevel(c);
      RebuildLevelIsRetry(c);
      LevelIsSimple(n, limit, f, first);
      RebuildLevelBlocks(c);
      RebuildIsShortestFirst(n, first.free, limit + 1);
      LevelThenLonger(first.flows, Rebuild(n, first.free, limit + 1).flows, limit);
    }
  }
}
