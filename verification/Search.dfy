/** The depth-first search for one route, and what it finds. */
module Search {
  import opened Network

  datatype Found = NotFound | Found(route: seq<Node>, amount: nat)

  /** The state that a search step works on: everything but the node it stands at. */
  datatype Context = Context(net: Net, free: Free, limit: nat)

  /** From the end of `r` to the contractor with the lines that the search may take: `passed` is the
      stack of nodes below `r[0]`. */
  predicate IsTail(c: Context, passed: seq<Node>, r: seq<Node>, length: nat) {
    && 1 <= |r| <= length + 1
    && r[|r| - 1] == c.net.contractor
    && (forall i | 0 <= i < |r| - 1 :: r[i] != c.net.contractor)
    && Walk(c.net, r)
    && Open(c.free, r)
    && NearlySimple(r)
    && (forall i | 1 <= i < |r| :: r[i] != CURRENT_NODE && r[i] !in passed)
  }

  /** `amount` is the least of `flow` and the free amounts along `r`. */
  predicate IsLeast(f: Free, r: seq<Node>, flow: nat, amount: nat) {
    && amount <= flow
    && (forall i: nat | i + 1 < |r| :: amount <= Cap(f, Hop(r, i)))
    && (amount == flow || exists i: nat | i + 1 < |r| :: amount == Cap(f, Hop(r, i)))
  }

  predicate Finds(c: Context, passed: seq<Node>, node: Node, flow: nat, length: nat, res: Found) {
    res.Found? ==>
      && res.amount > 0
      && IsTail(c, passed, res.route, length)
      && res.route[0] == node
      && IsLeast(c.free, res.route, flow, res.amount)
  }

  /** One call of the recursion: `flow` is what the lines taken so far let through. */
  ghost function FromNode(c: Context, passed: seq<Node>, node: Node, flow: nat, level: nat): Found
    requires level <= c.limit
    decreases c.limit - level, 1, 0
  {
    if node == c.net.contractor then
      if flow > 0 then Found([node], flow) else NotFound
    else if level == c.limit then
      NotFound
    else
      FromLines(c, passed, node, flow, level, Lines(c.net, node))
  }

  /** The loop over the lines of `node`, from the first of `targets` on. */
  ghost function FromLines(c: Context, passed: seq<Node>, node: Node, flow: nat, level: nat, targets: seq<Node>)
    : Found
    requires level < c.limit
    decreases c.limit - level, 0, |targets|
  {
    if targets == [] then
      NotFound
    else
      var first := FromLine(c, passed, node, flow, level, targets[0]);
      if first.Found? then first else FromLines(c, passed, node, flow, level, targets[1..])
  }

  /** One iteration of that loop. */
  ghost function FromLine(c: Context, passed: seq<Node>, node: Node, flow: nat, level: nat, target: Node): Found
    requires level < c.limit
    decreases c.limit - level, 0, 0
  {
    if Skips(c, passed, node, flow, target) then
      NotFound
    else
      var rest := FromNode(c, passed + [node], target, Min(Cap(c.free, Edge(node, target)), flow), level + 1);
      if rest.NotFound? then NotFound else Found([node] + rest.route, rest.amount)
  }

  predicate Skips(c: Context, passed: seq<Node>, node: Node, flow: nat, target: Node) {
    || target == CURRENT_NODE
    || target in c.net.inaccessible
    || target in passed
    || Min(Cap(c.free, Edge(node, target)), flow) == 0
  }

  // ----- What the search finds is a route

  lemma {:induction false} Sound(c: Context, passed: seq<Node>, node: Node, flow: nat, level: nat)
    requires level <= c.limit
    ensures Finds(c, passed, node, flow, c.limit - level, FromNode(c, passed, node, flow, level))
    decreases c.limit - level, 1, 0
  {
    if node != c.net.contractor && level != c.limit {
      SoundLines(c, passed, node, flow, level, Lines(c.net, node));
    }
  }

  lemma {:induction false} SoundLines(c: Context, passed: seq<Node>, node: Node, flow: nat, level: nat,
                                      targets: seq<Node>)
    requires level < c.limit && node != c.net.contractor
    requires forall t | t in targets :: t in Lines(c.net, node)
    ensures Finds(c, passed, node, flow, c.limit - level, FromLines(c, passed, node, flow, level, targets))
    decreases c.limit - level, 0, |targets|
  {
    if targets != [] {
      SoundLine(c, passed, node, flow, level, targets[0]);
      SoundLines(c, passed, node, flow, level, targets[1..]);
    }
  }

  lemma {:induction false} SoundLine(c: Context, passed: seq<Node>, node: Node, flow: nat, level: nat, target: Node)
    requires level < c.limit && node != c.net.contractor && target in Lines(c.net, node)
    ensures Finds(c, passed, node, flow, c.limit - level, FromLine(c, passed, node, flow, level, target))
    decreases c.limit - level, 0, 0
  {
    if !Skips(c, passed, node, flow, target) {
      var next := Min(Cap(c.free, Edge(node, target)), flow);
      Sound(c, passed + [node], target, next, level + 1);
      var rest := FromNode(c, passed + [node], target, next, level + 1);
      if rest.Found? {
        Prepend(c, passed, node, flow, c.limit - level - 1, target, rest);
      }
    }
  }

  lemma Prepend(c: Context, passed: seq<Node>, node: Node, flow: nat, length: nat, target: Node, rest: Found)
    requires rest.Found? && node != c.net.contractor
    requires Allowed(c.net, Edge(node, target)) && target != CURRENT_NODE && target !in passed
    requires Min(Cap(c.free, Edge(node, target)), flow) > 0
    requires Finds(c, passed + [node], target, Min(Cap(c.free, Edge(node, target)), flow), length, rest)
    ensures Finds(c, passed, node, flow, length + 1, Found([node] + rest.route, rest.amount))
  {
    var r := [node] + rest.route;
    assert Hop(r, 0) == Edge(node, target);
    forall i: nat | 1 <= i && i + 1 < |r|
      ensures Hop(r, i) == Hop(rest.route, i - 1)
    {}
    forall i: nat | i + 1 < |rest.route|
      ensures Hop(rest.route, i) == Hop(r, i + 1)
    {}
    forall i | 2 <= i < |r| ensures r[i] != node {
      assert r[i] == rest.route[i - 1];
    }
  }

  /** The loop at its i-th line. */
  lemma LoopStep(c: Context, passed: seq<Node>, node: Node, flow: nat, level: nat, i: nat)
    requires level < c.limit && i < |Lines(c.net, node)|
    ensures var targets := Lines(c.net, node);
      FromLines(c, passed, node, flow, level, targets[i..])
      == var first := FromLine(c, passed, node, flow, level, targets[i]);
         if first.Found? then first else FromLines(c, passed, node, flow, level, targets[i + 1..])
  {
    var targets := Lines(c.net, node);
    assert targets[i..][0] == targets[i] && targets[i..][1..] == targets[i + 1..];
  }

  /** The call that a successful iteration makes. */
  ghost function Deeper(c: Context, passed: seq<Node>, node: Node, flow: nat, level: nat, target: Node): Found
    requires level < c.limit
  {
    FromNode(c, passed + [node], target, Min(Cap(c.free, Edge(node, target)), flow), level + 1)
  }

  predicate Fits(f: Free, r: seq<Node>, a: nat) {
    forall i: nat | i + 1 < |r| :: a <= Cap(f, Hop(r, i))
  }

  /** What a call with the result `res` leaves behind when it started with the free amounts `f`, the stack
      `passed` and the recorded `paths`, and returns `flow`: nothing if it failed; otherwise one more path,
      and the found amount used on every line of its route. */
  ghost predicate Leaves(res: Found, f: Free, passed: seq<Node>, paths: seq<seq<Node>>,
                         flow: nat, f': Free, paths': seq<seq<Node>>) {
    match res
    case NotFound =>
      flow == 0 && f' == f && paths' == paths
    case Found(route, amount) =>
      && flow == amount > 0
      && |route| >= 1
      && Fits(f, route, amount)
      && f' == Augment(f, route, amount)
      && paths' == paths + [passed + route[..|route| - 1]]
  }

  lemma LeavesAtContractor(c: Context, passed: seq<Node>, flow: nat, level: nat, paths: seq<seq<Node>>)
    requires level <= c.limit
    ensures Leaves(FromNode(c, passed, c.net.contractor, flow, level), c.free, passed, paths,
                   flow, c.free, if flow > 0 then paths + [passed] else paths)
  {
    if flow > 0 {
      assert Augment(c.free, [c.net.contractor], flow) == c.free;
      assert passed + [] == passed;
    }
  }

  /** The free amounts after `a` more of a line is used, if anything is. */
  function Lowered(f: Free, e: Edge, a: nat): Free
    requires a > 0 ==> e in f && a <= f[e]
  {
    if a > 0 then f[e := f[e] - a] else f
  }

  /** Unwinding over one more line. */
  lemma LeavesUnwound(c: Context, passed: seq<Node>, node: Node, flow: nat, level: nat, target: Node,
                      paths: seq<seq<Node>>, a: nat, f': Free, paths': seq<seq<Node>>)
    requires level < c.limit && node != c.net.contractor && target in Lines(c.net, node)
    requires !Skips(c, passed, node, flow, target)
    requires Leaves(Deeper(c, passed, node, flow, level, target), c.free, passed + [node], paths, a, f', paths')
    ensures a > 0 ==> Edge(node, target) in f' && a <= f'[Edge(node, target)]
    ensures Leaves(FromLine(c, passed, node, flow, level, target), c.free, passed, paths,
                   a, Lowered(f', Edge(node, target), a), paths')
  {
    if a == 0 {
      return;
    }
    var rest := Deeper(c, passed, node, flow, level, target);
    var res := FromLine(c, passed, node, flow, level, target);
    Sound(c, passed + [node], target, Min(Cap(c.free, Edge(node, target)), flow), level + 1);
    SoundLine(c, passed, node, flow, level, target);
    assert res.Found? && res.route == [node] + rest.route;
    assert Hop(res.route, 0) == Edge(node, target);
    assert res.route[1..] == rest.route;
    AugmentStep(c.free, res.route, res.amount);
    assert passed + res.route[..|res.route| - 1] == passed + [node] + rest.route[..|rest.route| - 1];
  }

  // ----- The search fails only when there is nothing to find

  lemma {:induction false} Complete(c: Context, passed: seq<Node>, node: Node, flow: nat, level: nat, r: seq<Node>)
    requires level <= c.limit && flow > 0
    requires IsTail(c, passed, r, c.limit - level) && r[0] == node
    ensures FromNode(c, passed, node, flow, level).Found?
    decreases |r|
  {
    if node != c.net.contractor {
      assert Hop(r, 0) == Edge(node, r[1]);
      CompleteLines(c, passed, node, flow, level, Lines(c.net, node), r);
    }
  }

  lemma {:induction false} CompleteLines(c: Context, passed: seq<Node>, node: Node, flow: nat, level: nat,
                                         targets: seq<Node>, r: seq<Node>)
    requires level < c.limit && node != c.net.contractor && flow > 0
    requires forall t | t in targets :: t in Lines(c.net, node)
    requires IsTail(c, passed, r, c.limit - level) && r[0] == node
    requires |r| >= 2 && r[1] in targets
    ensures FromLines(c, passed, node, flow, level, targets).Found?
    decreases |r|, 0, |targets|
  {
    if targets[0] == r[1] {
      assert Hop(r, 0) == Edge(node, r[1]);
      TailOfTail(c, passed, r, c.limit - level);
      Complete(c, passed + [node], r[1], Min(Cap(c.free, Edge(node, r[1])), flow), level + 1, r[1..]);
    } else {
      CompleteLines(c, passed, node, flow, level, targets[1..], r);
    }
  }

  lemma TailOfTail(c: Context, passed: seq<Node>, r: seq<Node>, length: nat)
    requires IsTail(c, passed, r, length) && |r| >= 2
    ensures length >= 1 && IsTail(c, passed + [r[0]], r[1..], length - 1)
  {
    var s := r[1..];
    forall i: nat | i + 1 < |s| ensures Hop(s, i) == Hop(r, i + 1) {}
    forall i | 1 <= i < |s| ensures s[i] != r[0] {
      assert s[i] == r[i + 1];
    }
  }

  // ----- Leaving the inaccessible nodes out of the topology is the same as skipping them

  function Accessible(n: Net, targets: seq<Node>): seq<Node> {
    if targets == [] then []
    else (if targets[0] in n.inaccessible then [] else [targets[0]]) + Accessible(n, targets[1..])
  }

  /** The topology with the lines into inaccessible nodes removed, line order kept. */
  function WithoutInaccessible(n: Net): Net {
    Net(map u | u in n.lines :: Accessible(n, n.lines[u]), {}, n.contractor)
  }

  lemma {:induction false} AccessibleIn(n: Net, targets: seq<Node>, t: Node)
    ensures t in Accessible(n, targets) <==> t in targets && t !in n.inaccessible
  {
    if targets != [] {
      AccessibleIn(n, targets[1..], t);
    }
  }

  lemma {:induction false} FromNodeRestricted(c: Context, passed: seq<Node>, node: Node, flow: nat, level: nat)
    requires level <= c.limit
    ensures FromNode(c.(net := WithoutInaccessible(c.net)), passed, node, flow, level)
         == FromNode(c, passed, node, flow, level)
    decreases c.limit - level, 1, 0
  {
    if node != c.net.contractor && level != c.limit {
      FromLinesRestricted(c, passed, node, flow, level, Lines(c.net, node));
    }
  }

  lemma {:induction false} FromLinesRestricted(c: Context, passed: seq<Node>, node: Node, flow: nat, level: nat,
                                               targets: seq<Node>)
    requires level < c.limit && node != c.net.contractor
    requires forall t | t in targets :: t in Lines(c.net, node)
    ensures forall t | t in Accessible(c.net, targets) :: t in Lines(WithoutInaccessible(c.net), node)
    ensures FromLines(c.(net := WithoutInaccessible(c.net)), passed, node, flow, level, Accessible(c.net, targets))
         == FromLines(c, passed, node, flow, level, targets)
    decreases c.limit - level, 0, |targets|
  {
    forall t | t in Accessible(c.net, targets) ensures t in Lines(WithoutInaccessible(c.net), node) {
      AccessibleIn(c.net, targets, t);
      AccessibleIn(c.net, Lines(c.net, node), t);
    }
    if targets != [] {
      var t := targets[0];
      FromLinesRestricted(c, passed, node, flow, level, targets[1..]);
      if t in c.net.inaccessible {
        assert Accessible(c.net, targets) == Accessible(c.net, targets[1..]);
      } else {
        assert Accessible(c.net, targets) == [t] + Accessible(c.net, targets[1..]);
        FromNodeRestricted(c, passed + [node], t, Min(Cap(c.free, Edge(node, t)), flow), level + 1);
      }
    }
  }
}
