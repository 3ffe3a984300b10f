/** The loops that repeat the search over the lines of the current node, level by level. */
module Levels {
  import opened Network
  import opened Search

  /** What a loop leaves behind: the free amounts, and the paths it recorded in order. */
  datatype Run = Run(free: Free, flows: seq<Flow>)

  const MAX_PATH_LENGTH: nat := 6

  // ----- Runs: any sequence of routes, each one loaded with its bottleneck

  ghost predicate IsRun(n: Net, limit: nat, f: Free, run: Run)
    decreases run.flows
  {
    if run.flows == [] then
      run.free == f
    else
      && IsStep(n, limit, f, run.flows[0])
      && IsRun(n, limit, Augment(f, run.flows[0].route, run.flows[0].amount), Run(run.free, run.flows[1..]))
  }

  predicate IsStep(n: Net, limit: nat, f: Free, flow: Flow) {
    && IsRoute(n, limit, flow.route)
    && flow.amount > 0
    && IsBottleneck(f, flow.route, flow.amount)
  }

  /** Every path of a run is a route. */
  lemma {:induction false} RouteOf(n: Net, limit: nat, f: Free, run: Run, k: nat)
    requires IsRun(n, limit, f, run) && k < |run.flows|
    ensures IsRoute(n, limit, run.flows[k].route)
    decreases k
  {
    if k > 0 {
      var flow := run.flows[0];
      RouteOf(n, limit, Augment(f, flow.route, flow.amount), Run(run.free, run.flows[1..]), k - 1);
    }
  }

  lemma {:induction false} RunConcat(n: Net, limit: nat, f: Free, a: Run, b: Run)
    requires IsRun(n, limit, f, a) && IsRun(n, limit, a.free, b)
    ensures IsRun(n, limit, f, Run(b.free, a.flows + b.flows))
    decreases a.flows
  {
    if a.flows == [] {
      assert a.flows + b.flows == b.flows;
    } else {
      assert (a.flows + b.flows)[1..] == a.flows[1..] + b.flows;
      RunConcat(n, limit, Augment(f, a.flows[0].route, a.flows[0].amount), Run(a.free, a.flows[1..]), b);
    }
  }

  lemma {:induction false} RunLimit(n: Net, low: nat, high: nat, f: Free, run: Run)
    requires low <= high && IsRun(n, low, f, run)
    ensures IsRun(n, high, f, run)
    decreases run.flows
  {
    if run.flows != [] {
      RunLimit(n, low, high, Augment(f, run.flows[0].route, run.flows[0].amount), Run(run.free, run.flows[1..]));
    }
  }

  // ----- Free amounts only shrink

  ghost predicate AtMost(g: Free, f: Free) {
    forall e :: Cap(g, e) <= Cap(f, e)
  }

  lemma {:induction false} RunShrinks(n: Net, limit: nat, f: Free, run: Run)
    requires IsRun(n, limit, f, run)
    ensures AtMost(run.free, f)
    decreases run.flows
  {
    if run.flows != [] {
      RunShrinks(n, limit, Augment(f, run.flows[0].route, run.flows[0].amount), Run(run.free, run.flows[1..]));
    }
  }

  // ----- One search from the current node

  /** Search along the line from the current node to `head`. */
  ghost function Attempt(c: Context, head: Node): (res: Found)
    requires c.limit >= 1
  {
    if head in c.net.inaccessible then
      NotFound
    else
      var rest := FromNode(c, [], head, Cap(c.free, Edge(CURRENT_NODE, head)), 1);
      if rest.NotFound? then NotFound else Found([CURRENT_NODE] + rest.route, rest.amount)
  }

  predicate Heads(n: Net, heads: seq<Node>) {
    forall h | h in heads :: h in Lines(n, CURRENT_NODE)
  }

  /** The routes that an attempt on `head` is looking for. */
  predicate IsOpenRoute(c: Context, head: Node, r: seq<Node>) {
    && IsRoute(c.net, c.limit, r)
    && r[1] == head
    && Open(c.free, r)
    && (forall i | 2 <= i < |r| :: r[i] != CURRENT_NODE)
  }

  lemma AttemptSound(c: Context, head: Node)
    requires c.limit >= 1 && head in Lines(c.net, CURRENT_NODE)
    requires Attempt(c, head).Found?
    ensures var res := Attempt(c, head);
      && IsOpenRoute(c, head, res.route)
      && IsStep(c.net, c.limit, c.free, Flow(res.route, res.amount))
  {
    var flow := Cap(c.free, Edge(CURRENT_NODE, head));
    Sound(c, [], head, flow, 1);
    var s := FromNode(c, [], head, flow, 1).route;
    var r := [CURRENT_NODE] + s;
    assert Hop(r, 0) == Edge(CURRENT_NODE, head);
    forall i: nat | 1 <= i && i + 1 < |r| ensures Hop(r, i) == Hop(s, i - 1) {}
    forall i: nat | i + 1 < |s| ensures Hop(s, i) == Hop(r, i + 1) {}
    assert r[1] == s[0] == head;
  }

  lemma AttemptComplete(c: Context, head: Node, r: seq<Node>)
    requires c.limit >= 1 && IsOpenRoute(c, head, r)
    ensures Attempt(c, head).Found?
  {
    assert Hop(r, 0) == Edge(CURRENT_NODE, head);
    var s := r[1..];
    forall i: nat | i + 1 < |s| ensures Hop(s, i) == Hop(r, i + 1) {}
    Complete(c, [], head, Cap(c.free, Edge(CURRENT_NODE, head)), 1, s);
  }

  /** A search that failed stays failed as free amounts shrink. */
  lemma AttemptMonotone(c: Context, g: Free, head: Node)
    requires c.limit >= 1 && head in Lines(c.net, CURRENT_NODE)
    requires AtMost(g, c.free) && Attempt(c, head).NotFound?
    ensures Attempt(c.(free := g), head).NotFound?
  {
    var d := c.(free := g);
    if Attempt(d, head).Found? {
      AttemptSound(d, head);
      var r := Attempt(d, head).route;
      forall i: nat | i + 1 < |r| ensures Cap(c.free, Hop(r, i)) > 0 {
        assert Cap(g, Hop(r, i)) > 0;
      }
      AttemptComplete(c, head, r);
    }
  }

  lemma {:induction false} ZeroFlowFails(c: Context, passed: seq<Node>, node: Node, level: nat, targets: seq<Node>)
    requires level < c.limit && node != c.net.contractor
    requires forall t | t in targets :: t in Lines(c.net, node)
    ensures FromLines(c, passed, node, 0, level, targets).NotFound?
  {
    if targets != [] {
      ZeroFlowFails(c, passed, node, level, targets[1..]);
    }
  }

  /** Skipping a line of the current node with nothing free is the same as searching along it. */
  lemma AttemptOnUsedUp(c: Context, head: Node)
    requires c.limit >= 1 && Cap(c.free, Edge(CURRENT_NODE, head)) == 0
    ensures Attempt(c, head).NotFound?
  {
    if head != c.net.contractor && 1 != c.limit {
      ZeroFlowFails(c, [], head, 1, Lines(c.net, head));
    }
  }

  /** The free amounts after a successful attempt. */
  ghost function After(c: Context, head: Node): Free
    requires c.limit >= 1 && head in Lines(c.net, CURRENT_NODE) && Attempt(c, head).Found?
  {
    AttemptSound(c, head);
    Augment(c.free, Attempt(c, head).route, Attempt(c, head).amount)
  }

  lemma AfterLowers(c: Context, head: Node)
    requires c.limit >= 1 && head in Lines(c.net, CURRENT_NODE) && Attempt(c, head).Found?
    ensures AtMost(After(c, head), c.free)
    ensures Cap(After(c, head), Edge(CURRENT_NODE, head)) < Cap(c.free, Edge(CURRENT_NODE, head))
  {
    AttemptSound(c, head);
    assert Hop(Attempt(c, head).route, 0) == Edge(CURRENT_NODE, head);
  }

  // ----- Retry in place: the same line again after a success, the next one after a failure

  ghost function Retry(c: Context, heads: seq<Node>): (run: Run)
    requires c.limit >= 1 && Heads(c.net, heads)
    decreases |heads|, if heads == [] then 0 else Cap(c.free, Edge(CURRENT_NODE, heads[0]))
  {
    if heads == [] then
      Run(c.free, [])
    else
      var res := Attempt(c, heads[0]);
      if res.NotFound? then
        Retry(c, heads[1..])
      else
        AfterLowers(c, heads[0]);
        var rest := Retry(c.(free := After(c, heads[0])), heads);
        Run(rest.free, [Flow(res.route, res.amount)] + rest.flows)
  }

  lemma {:induction false} RetryIsRun(c: Context, heads: seq<Node>)
    requires c.limit >= 1 && Heads(c.net, heads)
    ensures IsRun(c.net, c.limit, c.free, Retry(c, heads))
    decreases |heads|, if heads == [] then 0 else Cap(c.free, Edge(CURRENT_NODE, heads[0]))
  {
    if heads != [] {
      if Attempt(c, heads[0]).NotFound? {
        RetryIsRun(c, heads[1..]);
      } else {
        AttemptSound(c, heads[0]);
        AfterLowers(c, heads[0]);
        RetryIsRun(c.(free := After(c, heads[0])), heads);
        var run := Retry(c, heads);
        assert run.flows[1..] == Retry(c.(free := After(c, heads[0])), heads).flows;
      }
    }
  }

  /** When the loop is over, no line that it tried leads anywhere any more. */
  lemma {:induction false} RetryExhausts(c: Context, heads: seq<Node>, h: Node)
    requires c.limit >= 1 && Heads(c.net, heads) && h in heads
    ensures Attempt(c.(free := Retry(c, heads).free), h).NotFound?
    decreases |heads|, if heads == [] then 0 else Cap(c.free, Edge(CURRENT_NODE, heads[0]))
  {
    if Attempt(c, heads[0]).NotFound? {
      if h == heads[0] {
        RetryIsRun(c, heads[1..]);
        RunShrinks(c.net, c.limit, c.free, Retry(c, heads[1..]));
        AttemptMonotone(c, Retry(c, heads[1..]).free, h);
      } else {
        RetryExhausts(c, heads[1..], h);
      }
    } else {
      AfterLowers(c, heads[0]);
      RetryExhausts(c.(free := After(c, heads[0])), heads, h);
    }
  }

  // ----- From a failed search on every line to no way through at all

  /** Any walk can be shortened to one that visits no node twice. */
  lemma {:induction false} Shortcut(n: Net, f: Free, w: seq<Node>) returns (s: seq<Node>)
    requires |w| >= 1 && Walk(n, w) && Open(f, w)
    ensures 1 <= |s| <= |w| && Walk(n, s) && Open(f, s) && Distinct(s)
    ensures s[0] == w[0] && s[|s| - 1] == w[|w| - 1]
    ensures |s| == |w| ==> Distinct(w)
    decreases |w|
  {
    if Distinct(w) {
      s := w;
    } else {
      var i, j :| 0 <= i < j < |w| && w[i] == w[j];
      var v := w[..i] + w[j..];
      forall k: nat | k + 1 < |v| ensures Allowed(n, Hop(v, k)) && Cap(f, Hop(v, k)) > 0 {
        var m: nat := if k < i then k else k - i + j;
        assert v[k] == w[m] && v[k + 1] == w[m + 1];
        assert Hop(v, k) == Hop(w, m);
      }
      s := Shortcut(n, f, v);
    }
  }

  /** No walk of at most `limit` lines to the contractor has something free on every line. */
  ghost predicate Blocked(n: Net, limit: nat, f: Free) {
    forall w | Reaches(n, limit, w) :: !Open(f, w)
  }

  lemma AllFailBlocks(c: Context)
    requires c.limit >= 1 && c.net.contractor != CURRENT_NODE
    requires forall h | h in Lines(c.net, CURRENT_NODE) :: Attempt(c, h).NotFound?
    ensures Blocked(c.net, c.limit, c.free)
  {
    forall w | Reaches(c.net, c.limit, w) ensures !Open(c.free, w) {
      if Open(c.free, w) {
        var s := Shortcut(c.net, c.free, w);
        assert Allowed(c.net, Hop(s, 0));
        assert IsOpenRoute(c, s[1], s);
        AttemptComplete(c, s[1], s);
      }
    }
  }

  /** Blocking flow: one level leaves no route of at most `limit` lines with something free on every line. */
  lemma RetryBlocks(c: Context)
    requires c.limit >= 1 && c.net.contractor != CURRENT_NODE
    ensures Blocked(c.net, c.limit, Retry(c, Lines(c.net, CURRENT_NODE)).free)
  {
    var d := c.(free := Retry(c, Lines(c.net, CURRENT_NODE)).free);
    forall h | h in Lines(c.net, CURRENT_NODE) ensures Attempt(d, h).NotFound? {
      RetryExhausts(c, Lines(c.net, CURRENT_NODE), h);
    }
    AllFailBlocks(d);
  }
}
