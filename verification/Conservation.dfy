/** What every run keeps: the used amounts decompose into the recorded paths, and the flow they make up
    is conserved and bounded by every cut. */
module Conservation {
  import opened Network
  import opened Levels

  // ----- Decomposition

  /** The amounts of the recorded paths that contain a line. */
  ghost function Load(flows: seq<Flow>, e: Edge): nat {
    if flows == [] then 0
    else (if Crosses(flows[0].route, e) then flows[0].amount else 0) + Load(flows[1..], e)
  }

  /** Each line's used amount grows by exactly what the paths over it carry; in particular the free
      amount of no line underflows. */
  lemma {:induction false} UsedIsLoad(n: Net, limit: nat, f: Free, run: Run, e: Edge)
    requires IsRun(n, limit, f, run)
    ensures e in f <==> e in run.free
    ensures Cap(f, e) - Cap(run.free, e) == Load(run.flows, e)
    decreases run.flows
  {
    if run.flows != [] {
      var flow := run.flows[0];
      if Crosses(flow.route, e) {
        var i: nat :| i + 1 < |flow.route| && Hop(flow.route, i) == e;
        assert flow.amount <= Cap(f, Hop(flow.route, i));
      }
      UsedIsLoad(n, limit, Augment(f, flow.route, flow.amount), Run(run.free, run.flows[1..]), e);
    }
  }

  /** What the recorded paths over a line carry together was free on it before the first of them. */
  lemma LoadWithinFree(n: Net, limit: nat, f: Free, run: Run, e: Edge)
    requires IsRun(n, limit, f, run)
    ensures Load(run.flows, e) <= Cap(f, e)
  {
    UsedIsLoad(n, limit, f, run, e);
  }

  // ----- Sums over a set of lines

  /** The total free amount of the lines in `select`. */
  ghost function FreeSum(f: Free, select: Edge -> bool): nat
    decreases f.Keys
  {
    if f == map[] then 0
    else
      var e :| e in f;
      (if select(e) then f[e] else 0) + FreeSum(f - {e}, select)
  }

  lemma {:induction false} FreeSumSplit(f: Free, select: Edge -> bool, e: Edge)
    requires e in f
    ensures FreeSum(f, select) == (if select(e) then f[e] else 0) + FreeSum(f - {e}, select)
    decreases f.Keys
  {
    var d :| d in f && FreeSum(f, select) == (if select(d) then f[d] else 0) + FreeSum(f - {d}, select);
    if d != e {
      FreeSumSplit(f - {d}, select, e);
      FreeSumSplit(f - {e}, select, d);
      assert f - {d} - {e} == f - {e} - {d};
    }
  }

  lemma FreeSumUpdate(f: Free, select: Edge -> bool, e: Edge, v: nat)
    requires e in f
    ensures FreeSum(f[e := v], select) == FreeSum(f, select) + if select(e) then v - f[e] else 0
  {
    FreeSumSplit(f, select, e);
    FreeSumSplit(f[e := v], select, e);
    assert f[e := v] - {e} == f - {e};
  }

  /** How many of a route's lines are in `select`. */
  ghost function HopsIn(r: seq<Node>, select: Edge -> bool): nat {
    if |r| < 2 then 0 else (if select(Hop(r, 0)) then 1 else 0) + HopsIn(r[1..], select)
  }

  lemma AugmentStepTakes(f: Free, r: seq<Node>, a: nat, select: Edge -> bool)
    requires NearlySimple(r) && a > 0 && |r| >= 2
    requires forall i: nat | i + 1 < |r| :: a <= Cap(f, Hop(r, i))
    ensures forall i: nat | i + 1 < |r[1..]| :: a <= Cap(f, Hop(r[1..], i))
    ensures FreeSum(Augment(f, r, a), select) + (if select(Hop(r, 0)) then a else 0)
         == FreeSum(Augment(f, r[1..], a), select)
  {
    assert a <= Cap(f, Hop(r, 0));
    AugmentStep(f, r, a);
    FreeSumUpdate(Augment(f, r[1..], a), select, Hop(r, 0), f[Hop(r, 0)] - a);
  }

  /** Loading a route takes its amount off the selected lines once for every selected line on it. */
  lemma {:induction false} AugmentTakes(f: Free, r: seq<Node>, a: nat, select: Edge -> bool)
    requires NearlySimple(r) && a > 0
    requires forall i: nat | i + 1 < |r| :: a <= Cap(f, Hop(r, i))
    ensures FreeSum(Augment(f, r, a), select) + a * HopsIn(r, select) == FreeSum(f, select)
    decreases |r|
  {
    if |r| < 2 {
      assert Augment(f, r, a) == f;
    } else {
      AugmentStepTakes(f, r, a, select);
      NearlySimpleTail(r);
      AugmentTakes(f, r[1..], a, select);
      Distribute(a, HopsIn(r, select), HopsIn(r[1..], select), 0, if select(Hop(r, 0)) then 1 else 0);
    }
  }

  /** Selected lines crossed by the recorded paths, weighted by their amounts. */
  ghost function Taken(flows: seq<Flow>, select: Edge -> bool): nat {
    if flows == [] then 0 else flows[0].amount * HopsIn(flows[0].route, select) + Taken(flows[1..], select)
  }

  lemma {:induction false} RunTakes(n: Net, limit: nat, f: Free, run: Run, select: Edge -> bool)
    requires IsRun(n, limit, f, run)
    ensures FreeSum(run.free, select) + Taken(run.flows, select) == FreeSum(f, select)
    decreases run.flows
  {
    if run.flows != [] {
      var flow := run.flows[0];
      AugmentTakes(f, flow.route, flow.amount, select);
      RunTakes(n, limit, Augment(f, flow.route, flow.amount), Run(run.free, run.flows[1..]), select);
    }
  }

  // ----- Flow conservation

  function Into(v: Node): Edge -> bool {
    (e: Edge) => e.target == v
  }

  function OutOf(v: Node): Edge -> bool {
    (e: Edge) => e.source == v
  }

  /** What a run used of the selected lines. */
  ghost function UsedOf(f: Free, run: Run, select: Edge -> bool): int {
    FreeSum(f, select) - FreeSum(run.free, select)
  }

  lemma {:induction false} HopsBalance(r: seq<Node>, v: Node)
    requires |r| >= 1
    ensures HopsIn(r, OutOf(v)) + (if r[|r| - 1] == v then 1 else 0)
         == HopsIn(r, Into(v)) + (if r[0] == v then 1 else 0)
  {
    if |r| >= 2 {
      HopsBalance(r[1..], v);
    }
  }

  lemma {:induction false} TakenBalance(n: Net, limit: nat, f: Free, run: Run, v: Node)
    requires IsRun(n, limit, f, run)
    ensures Taken(run.flows, OutOf(v)) + (if v == n.contractor then Total(run.flows) else 0)
         == Taken(run.flows, Into(v)) + (if v == CURRENT_NODE then Total(run.flows) else 0)
    decreases run.flows
  {
    if run.flows != [] {
      var flow := run.flows[0];
      HopsBalance(flow.route, v);
      Distribute(flow.amount, HopsIn(flow.route, OutOf(v)), HopsIn(flow.route, Into(v)),
                 if v == n.contractor then 1 else 0, if v == CURRENT_NODE then 1 else 0);
      TakenBalance(n, limit, Augment(f, flow.route, flow.amount), Run(run.free, run.flows[1..]), v);
    }
  }

  lemma Distribute(a: int, x: int, y: int, p: int, q: int)
    requires x + p == y + q
    ensures a * x + a * p == a * y + a * q
  {
    assert a * (x + p) == a * (y + q);
  }

  /** Kirchhoff's law for every run: what a node takes in it passes on, except that the current node
      sends the total of all recorded amounts and the contractor keeps it. */
  lemma Conservation(n: Net, limit: nat, f: Free, run: Run, v: Node)
    requires IsRun(n, limit, f, run)
    ensures UsedOf(f, run, OutOf(v)) - UsedOf(f, run, Into(v))
         == (if v == CURRENT_NODE then Total(run.flows) else 0) - (if v == n.contractor then Total(run.flows) else 0)
  {
    RunTakes(n, limit, f, run, OutOf(v));
    RunTakes(n, limit, f, run, Into(v));
    TakenBalance(n, limit, f, run, v);
  }

  // ----- Cuts

  /** The lines that leave a set of nodes. */
  function Leaving(side: set<Node>): Edge -> bool {
    (e: Edge) => e.source in side && e.target !in side
  }

  lemma {:induction false} RouteLeaves(r: seq<Node>, side: set<Node>)
    requires |r| >= 1 && r[0] in side && r[|r| - 1] !in side
    ensures HopsIn(r, Leaving(side)) >= 1
  {
    if r[1] in side {
      RouteLeaves(r[1..], side);
    }
  }

  lemma {:induction false} TotalLeaves(n: Net, limit: nat, f: Free, run: Run, side: set<Node>)
    requires IsRun(n, limit, f, run) && CURRENT_NODE in side && n.contractor !in side
    ensures Total(run.flows) <= Taken(run.flows, Leaving(side))
    decreases run.flows
  {
    if run.flows != [] {
      var flow := run.flows[0];
      RouteLeaves(flow.route, side);
      var h := HopsIn(flow.route, Leaving(side));
      assert flow.amount * h >= flow.amount * 1;
      TotalLeaves(n, limit, Augment(f, flow.route, flow.amount), Run(run.free, run.flows[1..]), side);
    }
  }

  /** For any set of nodes around the current node and without the contractor, the recorded paths carry
      at most what was free on the lines that leave the set. */
  lemma CutBound(n: Net, limit: nat, f: Free, run: Run, side: set<Node>)
    requires IsRun(n, limit, f, run) && CURRENT_NODE in side && n.contractor !in side
    ensures Total(run.flows) <= FreeSum(f, Leaving(side))
  {
    TotalLeaves(n, limit, f, run, side);
    RunTakes(n, limit, f, run, Leaving(side));
  }

  // ----- Path soundness

  /** Every recorded path of a run is a route, loaded with what was the least free amount on it. */
  lemma {:induction false} RecordedPaths(n: Net, limit: nat, f: Free, run: Run, k: nat)
    requires IsRun(n, limit, f, run) && k < |run.flows|
    ensures IsRun(n, limit, f, Run(FreeBefore(n, limit, f, run, k), run.flows[..k]))
    ensures IsStep(n, limit, FreeBefore(n, limit, f, run, k), run.flows[k])
    decreases run.flows
  {
    if k == 0 {
      assert run.flows[..0] == [];
    } else {
      var g := Augment(f, run.flows[0].route, run.flows[0].amount);
      RecordedPaths(n, limit, g, Run(run.free, run.flows[1..]), k - 1);
      assert run.flows[..k][1..] == run.flows[1..][..k - 1];
    }
  }

  /** The free amounts at the moment the k-th path is recorded. */
  ghost function FreeBefore(n: Net, limit: nat, f: Free, run: Run, k: nat): Free
    requires IsRun(n, limit, f, run) && k <= |run.flows|
    decreases k
  {
    if k == 0 then f
    else FreeBefore(n, limit, Augment(f, run.flows[0].route, run.flows[0].amount), Run(run.free, run.flows[1..]), k - 1)
  }

  /** A route has a line from a node to itself. */
  predicate HasSelfLoop(r: seq<Node>) {
    exists i: nat | i + 1 < |r| :: Hop(r, i).source == Hop(r, i).target
  }

  /** The intermediate nodes of a recorded path are pairwise distinct and none of them is the current
      node or the contractor, exactly if the path uses no line from a node to itself. */
  lemma PathValidity(n: Net, limit: nat, r: seq<Node>)
    requires IsRoute(n, limit, r) && n.contractor != CURRENT_NODE
    ensures |Intermediates(r)| <= limit - 1
    ensures forall v | v in Intermediates(r) :: v != n.contractor && v !in n.inaccessible
    ensures Distinct(Intermediates(r)) && CURRENT_NODE !in Intermediates(r) <==> !HasSelfLoop(r)
  {
    var s := Intermediates(r);
    forall v | v in s ensures v != n.contractor && v !in n.inaccessible {
      var i :| 0 <= i < |s| && s[i] == v;
      assert Allowed(n, Hop(r, i));
    }
    if HasSelfLoop(r) {
      var i: nat :| i + 1 < |r| && Hop(r, i).source == Hop(r, i).target;
      if i == 0 {
        assert s[0] == r[1] == CURRENT_NODE;
      } else {
        assert r[|r| - 1] == n.contractor;
        assert s[i - 1] == r[i] && s[i] == r[i + 1];
      }
    } else {
      forall i, j | 0 <= i < j < |s| ensures s[i] != s[j] {
        if j == i + 1 {
          assert Hop(r, j) == Edge(s[i], s[j]);
        }
      }
      assert Hop(r, 0) == Edge(CURRENT_NODE, r[1]);
    }
  }
}
