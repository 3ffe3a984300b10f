/** The topology seen by the path search: which trust lines exist, how much of each is still free,
    and what it means to push an amount along a route. */
module Network {

  type Node = nat

  /** The ID under which a node knows itself in its own topology. */
  const CURRENT_NODE: Node := 0

  /** A trust line. The topology keeps at most one line from a given source to a given target. */
  datatype Edge = Edge(source: Node, target: Node)

  /** The free amount of every line. */
  type Free = map<Edge, nat>

  /** For every node the targets of its lines in iteration order, the nodes declared inaccessible,
      and the contractor the routes must lead to. */
  datatype Net = Net(lines: map<Node, seq<Node>>, inaccessible: set<Node>, contractor: Node)

  /** One recorded path: its route from the current node to the contractor, and the amount it carries. */
  datatype Flow = Flow(route: seq<Node>, amount: nat)

  function Min(a: nat, b: nat): (m: nat) {
    if a < b then a else b
  }

  function Lines(n: Net, u: Node): seq<Node> {
    if u in n.lines then n.lines[u] else []
  }

  function Cap(f: Free, e: Edge): nat {
    if e in f then f[e] else 0
  }

  /** The i-th line of a route. */
  function Hop(r: seq<Node>, i: nat): Edge
    requires i + 1 < |r|
  {
    Edge(r[i], r[i + 1])
  }

  predicate Crosses(r: seq<Node>, e: Edge) {
    exists i: nat | i + 1 < |r| :: Hop(r, i) == e
  }

  predicate Allowed(n: Net, e: Edge) {
    e.target in Lines(n, e.source) && e.target !in n.inaccessible
  }

  /** Any sequence of accessible lines that join up, revisits included. */
  predicate Walk(n: Net, w: seq<Node>) {
    forall i: nat | i + 1 < |w| :: Allowed(n, Hop(w, i))
  }

  /** Every line of the walk has a positive free amount. */
  predicate Open(f: Free, w: seq<Node>) {
    forall i: nat | i + 1 < |w| :: Cap(f, Hop(w, i)) > 0
  }

  /** A walk from the current node to the contractor over at least one and at most `limit` lines. */
  predicate Reaches(n: Net, limit: nat, w: seq<Node>) {
    && 2 <= |w| <= limit + 1
    && w[0] == CURRENT_NODE
    && w[|w| - 1] == n.contractor
    && Walk(n, w)
  }

  predicate Distinct(s: seq<Node>) {
    forall i, j | 0 <= i < j < |s| :: s[i] != s[j]
  }

  /** No node comes back, except that a node may follow itself over a line to itself. */
  predicate NearlySimple(s: seq<Node>) {
    forall i, j | 0 <= i && i + 2 <= j < |s| :: s[i] != s[j]
  }

  /** What the search promises of a route that it records. */
  predicate IsRoute(n: Net, limit: nat, r: seq<Node>) {
    && Reaches(n, limit, r)
    && NearlySimple(r)
    && (forall i | 1 <= i < |r| - 1 :: r[i] != n.contractor)
  }

  /** `a` is the smallest free amount along `r`. */
  predicate IsBottleneck(f: Free, r: seq<Node>, a: nat) {
    && (forall i: nat | i + 1 < |r| :: a <= Cap(f, Hop(r, i)))
    && (exists i: nat | i + 1 < |r| :: a == Cap(f, Hop(r, i)))
  }

  ghost function Remaining(f: Free, r: seq<Node>, a: nat, e: Edge): nat
    requires e in f
    requires forall i: nat | i + 1 < |r| :: a <= Cap(f, Hop(r, i))
  {
    if Crosses(r, e) then
      var i: nat :| i + 1 < |r| && Hop(r, i) == e;
      assert a <= Cap(f, Hop(r, i));
      f[e] - a
    else
      f[e]
  }

  /** The free amounts after `a` is used on every line of `r`. */
  ghost function Augment(f: Free, r: seq<Node>, a: nat): Free
    requires forall i: nat | i + 1 < |r| :: a <= Cap(f, Hop(r, i))
  {
    map e | e in f :: Remaining(f, r, a, e)
  }

  /** The nodes between the current node and the contractor: what a recorded path stores. */
  function Intermediates(r: seq<Node>): seq<Node> {
    if |r| < 2 then [] else r[1..|r| - 1]
  }

  function PathsOf(flows: seq<Flow>): seq<seq<Node>> {
    if flows == [] then [] else [Intermediates(flows[0].route)] + PathsOf(flows[1..])
  }

  lemma {:induction false} PathsOfConcat(a: seq<Flow>, b: seq<Flow>)
    ensures PathsOf(a + b) == PathsOf(a) + PathsOf(b)
  {
    if a == [] {
      assert a + b == b;
    } else {
      assert (a + b)[1..] == a[1..] + b;
      PathsOfConcat(a[1..], b);
    }
  }

  function Total(flows: seq<Flow>): nat {
    if flows == [] then 0 else flows[0].amount + Total(flows[1..])
  }

  lemma {:induction false} TotalConcat(a: seq<Flow>, b: seq<Flow>)
    ensures Total(a + b) == Total(a) + Total(b)
  {
    if a == [] {
      assert a + b == b;
    } else {
      assert (a + b)[1..] == a[1..] + b;
      TotalConcat(a[1..], b);
    }
  }

  // ----- Routes cross a line at most once

  lemma HopsDistinct(r: seq<Node>, i: nat, j: nat)
    requires NearlySimple(r) && i < j && j + 1 < |r|
    ensures Hop(r, i) != Hop(r, j)
  {
    if j == i + 1 {
      assert r[i] != r[i + 2];
    }
  }

  lemma CrossesTail(r: seq<Node>, e: Edge)
    requires |r| >= 2
    ensures Crosses(r, e) <==> Hop(r, 0) == e || Crosses(r[1..], e)
  {
    forall i: nat | i + 2 < |r| ensures Hop(r[1..], i) == Hop(r, i + 1) {}
    if Crosses(r, e) && Hop(r, 0) != e {
      var i: nat :| i + 1 < |r| && Hop(r, i) == e;
      assert Hop(r[1..], i - 1) == e;
    }
  }

  lemma NearlySimpleTail(r: seq<Node>)
    requires NearlySimple(r) && |r| >= 2
    ensures NearlySimple(r[1..])
    ensures !Crosses(r[1..], Hop(r, 0))
  {
    forall i: nat | i + 2 < |r| ensures Hop(r[1..], i) != Hop(r, 0) {
      HopsDistinct(r, 0, i + 1);
      assert Hop(r[1..], i) == Hop(r, i + 1);
    }
  }

  /** Augmenting is using the first line on top of using all the others, the order in which the
      recursion unwinds. */
  lemma AugmentStep(f: Free, r: seq<Node>, a: nat)
    requires |r| >= 2 && NearlySimple(r) && Hop(r, 0) in f
    requires forall i: nat | i + 1 < |r| :: a <= Cap(f, Hop(r, i))
    ensures forall i: nat | i + 1 < |r[1..]| :: a <= Cap(f, Hop(r[1..], i))
    ensures Augment(f, r, a) == Augment(f, r[1..], a)[Hop(r, 0) := f[Hop(r, 0)] - a]
    ensures Augment(f, r[1..], a)[Hop(r, 0)] == f[Hop(r, 0)]
  {
    NearlySimpleTail(r);
    forall i: nat | i + 1 < |r[1..]| ensures a <= Cap(f, Hop(r[1..], i)) {
      assert Hop(r[1..], i) == Hop(r, i + 1);
    }
    forall e | e in f ensures Crosses(r, e) <==> Hop(r, 0) == e || Crosses(r[1..], e) {
      CrossesTail(r, e);
    }
  }
}
