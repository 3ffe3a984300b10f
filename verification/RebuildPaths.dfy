/** Which paths a rebuild records. It starts at the second level, so nothing has used the direct line yet. The
    theorems hold for all topologies; that the current node has a line to itself, of which some of them speak,
    never comes up in one that is put together from reported lines. */
module RebuildPaths {
  import opened Network
  import opened Search
  import opened Levels
  import opened Builds
  import opened ShortestFirst
  import opened Gateways
  import opened Conservation

  /** Some recorded path has the current node among its intermediate nodes. */
  predicate PassesCurrentNode(flows: seq<Flow>) {
    exists k | 0 <= k < |flows| :: |flows[k].route| >= 2 && CURRENT_NODE in Intermediates(flows[k].route)
  }

  /** The line of the current node to itself comes before its line to the contractor. */
  predicate SelfComesFirst(heads: seq<Node>, contractor: Node) {
    heads != [] && heads[0] != contractor && (heads[0] == CURRENT_NODE || SelfComesFirst(heads[1..], contractor))
  }

  /** The way from the current node over itself to the contractor. */
  predicate SelfIsOpen(c: Context) {
    && Allowed(c.net, Edge(CURRENT_NODE, CURRENT_NODE))
    && Allowed(c.net, Edge(CURRENT_NODE, c.net.contractor))
    && Cap(c.free, Edge(CURRENT_NODE, CURRENT_NODE)) > 0
    && Cap(c.free, Edge(CURRENT_NODE, c.net.contractor)) > 0
  }

  /** With at most two lines, the head decides the route. */
  function RouteVia(head: Node, contractor: Node): seq<Node> {
    if head == contractor then [CURRENT_NODE, contractor] else [CURRENT_NODE, head, contractor]
  }

  lemma AttemptVia(c: Context, head: Node)
    requires c.limit == 2 && c.net.contractor != CURRENT_NODE && head in Lines(c.net, CURRENT_NODE)
    ensures Attempt(c, head).Found? ==> Attempt(c, head).route == RouteVia(head, c.net.contractor)
    ensures Attempt(c, head).Found? <==>
              Walk(c.net, RouteVia(head, c.net.contractor)) && Open(c.free, RouteVia(head, c.net.contractor))
  {
    var r := RouteVia(head, c.net.contractor);
    if Attempt(c, head).Found? {
      AttemptSound(c, head);
      var s := Attempt(c, head).route;
      assert |s| == 3 ==> s[1] != c.net.contractor;
      assert s == r;
    }
    if Walk(c.net, r) && Open(c.free, r) {
      AttemptComplete(c, head, r);
    }
  }

  lemma SelfRoute(c: Context)
    requires c.net.contractor != CURRENT_NODE
    ensures var r := RouteVia(CURRENT_NODE, c.net.contractor); SelfIsOpen(c) <==> Walk(c.net, r) && Open(c.free, r)
    ensures var r := RouteVia(c.net.contractor, c.net.contractor); SelfIsOpen(c) ==> Walk(c.net, r) && Open(c.free, r)
  {
    var r := RouteVia(CURRENT_NODE, c.net.contractor);
    assert Hop(r, 0) == Edge(CURRENT_NODE, CURRENT_NODE);
    assert Hop(r, 1) == Edge(CURRENT_NODE, c.net.contractor);
  }

  lemma PassesCons(flow: Flow, flows: seq<Flow>)
    requires |flow.route| >= 2
    ensures PassesCurrentNode([flow] + flows) <==>
              CURRENT_NODE in Intermediates(flow.route) || PassesCurrentNode(flows)
  {
    var all := [flow] + flows;
    assert all[0] == flow;
    if PassesCurrentNode(flows) {
      var k :| 0 <= k < |flows| && |flows[k].route| >= 2 && CURRENT_NODE in Intermediates(flows[k].route);
      assert all[k + 1] == flows[k];
    }
  }

  lemma {:induction false} RetryPasses(c: Context, heads: seq<Node>)
    requires c.limit == 2 && c.net.contractor != CURRENT_NODE && Heads(c.net, heads)
    ensures PassesCurrentNode(Retry(c, heads).flows) <==> SelfComesFirst(heads, c.net.contractor) && SelfIsOpen(c)
    decreases |heads|, if heads == [] then 0 else Cap(c.free, Edge(CURRENT_NODE, heads[0]))
  {
    if heads != [] {
      AttemptVia(c, heads[0]);
      SelfRoute(c);
      if Attempt(c, heads[0]).NotFound? {
        RetryPasses(c, heads[1..]);
      } else {
        var d := c.(free := After(c, heads[0]));
        var flow := Flow(Attempt(c, heads[0]).route, Attempt(c, heads[0]).amount);
        PassesCons(flow, Retry(d, heads).flows);
        AfterLowers(c, heads[0]);
        RetryPasses(d, heads);
        OtherHeadKeepsSelf(c, heads[0]);
      }
    }
  }

  lemma OtherHeadKeepsSelf(c: Context, head: Node)
    requires c.limit == 2 && c.net.contractor != CURRENT_NODE && head in Lines(c.net, CURRENT_NODE)
    requires Attempt(c, head).Found?
    ensures head != CURRENT_NODE && head != c.net.contractor ==>
              && Cap(After(c, head), Edge(CURRENT_NODE, CURRENT_NODE)) == Cap(c.free, Edge(CURRENT_NODE, CURRENT_NODE))
              && Cap(After(c, head), Edge(CURRENT_NODE, c.net.contractor))
                 == Cap(c.free, Edge(CURRENT_NODE, c.net.contractor))
    ensures CURRENT_NODE in Intermediates(RouteVia(head, c.net.contractor)) <==> head == CURRENT_NODE
  {
    AttemptVia(c, head);
    var r := RouteVia(head, c.net.contractor);
    assert Intermediates(r) == if head == c.net.contractor then [] else [head];
    if head != CURRENT_NODE && head != c.net.contractor {
      assert !Crosses(r, Edge(CURRENT_NODE, CURRENT_NODE));
      assert !Crosses(r, Edge(CURRENT_NODE, c.net.contractor));
    }
  }

  lemma {:induction false} SimplePathsAvoidCurrentNode(flows: seq<Flow>, least: nat)
    requires OrderedByLength(flows, least) && least >= 1
    requires forall k | 0 <= k < |flows| :: flows[k].route[0] == CURRENT_NODE
    ensures !PassesCurrentNode(flows)
  {
    forall k | 0 <= k < |flows| ensures CURRENT_NODE !in Intermediates(flows[k].route) {
      var r := flows[k].route;
      forall i | 0 <= i < |Intermediates(r)| ensures Intermediates(r)[i] != CURRENT_NODE {
        assert r[0] != r[i + 1];
      }
    }
  }

  /** A rebuild records a path through the current node itself exactly if the current node has an accessible
      line to itself, listed before its line to the contractor, and something is free on both. */
  lemma RebuildPassesCurrentNode(n: Net, f: Free)
    requires n.contractor != CURRENT_NODE
    ensures PassesCurrentNode(Rebuild(n, f, 2).flows) <==>
              SelfComesFirst(Lines(n, CURRENT_NODE), n.contractor) && SelfIsOpen(Context(n, f, 2))
  {
    var c := Context(n, f, 2);
    var heads := Lines(n, CURRENT_NODE);
    var first := RebuildLevel(c);
    RebuildLevelIsRetry(c);
    RebuildIsRun(n, first.free, 3);
    RetryPasses(c, heads);
    RebuildLevelBlocks(c);
    var rest := Rebuild(n, first.free, 3);
    RebuildIsShortestFirst(n, first.free, 3);
    forall k: nat | k < |rest.flows| ensures rest.flows[k].route[0] == CURRENT_NODE {
      RouteOf(n, MAX_PATH_LENGTH, first.free, rest, k);
    }
    SimplePathsAvoidCurrentNode(rest.flows, 3);
    PassesConcat(first.flows, rest.flows);
  }

  // ----- Direct paths

  /** Some recorded path is direct. */
  predicate HasDirect(flows: seq<Flow>) {
    exists k | 0 <= k < |flows| :: |flows[k].route| == 2
  }

  /** What the line of the current node to itself, if there is one, uses of the direct line before it is tried. */
  function TakenBefore(c: Context, heads: seq<Node>): nat {
    if SelfComesFirst(heads, c.net.contractor) && CURRENT_NODE !in c.net.inaccessible
    then Cap(c.free, Edge(CURRENT_NODE, CURRENT_NODE)) else 0
  }

  predicate DirectIsLeft(c: Context, heads: seq<Node>) {
    && c.net.contractor in heads
    && c.net.contractor !in c.net.inaccessible
    && Cap(c.free, Edge(CURRENT_NODE, c.net.contractor)) > TakenBefore(c, heads)
  }

  lemma HasDirectCons(flow: Flow, flows: seq<Flow>)
    ensures HasDirect([flow] + flows) <==> |flow.route| == 2 || HasDirect(flows)
  {
    var all := [flow] + flows;
    assert all[0] == flow;
    if HasDirect(flows) {
      var k :| 0 <= k < |flows| && |flows[k].route| == 2;
      assert all[k + 1] == flows[k];
    }
  }

  lemma HasDirectConcat(a: seq<Flow>, b: seq<Flow>)
    ensures HasDirect(a + b) <==> HasDirect(a) || HasDirect(b)
  {
    var s := a + b;
    if HasDirect(a) {
      var k :| 0 <= k < |a| && |a[k].route| == 2;
      assert s[k] == a[k];
    }
    if HasDirect(b) {
      var k :| 0 <= k < |b| && |b[k].route| == 2;
      assert s[|a| + k] == b[k];
    }
  }

  /** What the search along a line needs, in terms of that line and the ones it leads to. */
  lemma DirectOpen(c: Context, head: Node)
    requires c.limit == 2 && c.net.contractor != CURRENT_NODE && head in Lines(c.net, CURRENT_NODE)
    ensures head == c.net.contractor ==>
      (Attempt(c, head).Found? <==>
        head !in c.net.inaccessible && Cap(c.free, Edge(CURRENT_NODE, head)) > 0)
    ensures head == CURRENT_NODE ==> (Attempt(c, head).Found? <==> SelfIsOpen(c))
    ensures Attempt(c, head).Found? ==> (|Attempt(c, head).route| == 2 <==> head == c.net.contractor)
  {
    AttemptVia(c, head);
    SelfRoute(c);
    var r := RouteVia(head, c.net.contractor);
    assert Hop(r, 0) == Edge(CURRENT_NODE, head);
  }

  /** The search over the line to itself takes as much off that line as off the direct one. */
  lemma SelfTakesBoth(c: Context)
    requires c.limit == 2 && c.net.contractor != CURRENT_NODE && CURRENT_NODE in Lines(c.net, CURRENT_NODE)
    requires Attempt(c, CURRENT_NODE).Found?
    ensures var res, after := Attempt(c, CURRENT_NODE), After(c, CURRENT_NODE);
      && Cap(after, Edge(CURRENT_NODE, CURRENT_NODE)) + res.amount == Cap(c.free, Edge(CURRENT_NODE, CURRENT_NODE))
      && Cap(after, Edge(CURRENT_NODE, c.net.contractor)) + res.amount
         == Cap(c.free, Edge(CURRENT_NODE, c.net.contractor))
  {
    AttemptVia(c, CURRENT_NODE);
    AttemptSound(c, CURRENT_NODE);
    var r := RouteVia(CURRENT_NODE, c.net.contractor);
    assert Hop(r, 0) == Edge(CURRENT_NODE, CURRENT_NODE);
    assert Hop(r, 1) == Edge(CURRENT_NODE, c.net.contractor);
  }

  lemma {:induction false} RetryHasDirect(c: Context, heads: seq<Node>)
    requires c.limit == 2 && c.net.contractor != CURRENT_NODE && Heads(c.net, heads)
    ensures HasDirect(Retry(c, heads).flows) <==> DirectIsLeft(c, heads)
    decreases |heads|, if heads == [] then 0 else Cap(c.free, Edge(CURRENT_NODE, heads[0]))
  {
    if heads != [] {
      DirectOpen(c, heads[0]);
      if Attempt(c, heads[0]).NotFound? {
        RetryHasDirect(c, heads[1..]);
        assert heads == [heads[0]] + heads[1..];
        NextHead(c, heads);
      } else {
        var d := c.(free := After(c, heads[0]));
        var flow := Flow(Attempt(c, heads[0]).route, Attempt(c, heads[0]).amount);
        HasDirectCons(flow, Retry(d, heads).flows);
        AfterLowers(c, heads[0]);
        RetryHasDirect(d, heads);
        OtherHeadKeepsSelf(c, heads[0]);
        if heads[0] == CURRENT_NODE {
          SelfTakesBoth(c);
        }
      }
    }
  }

  /** A line along which the search fails makes no difference. */
  lemma NextHead(c: Context, heads: seq<Node>)
    requires c.limit == 2 && c.net.contractor != CURRENT_NODE && Heads(c.net, heads) && heads != []
    requires Attempt(c, heads[0]).NotFound?
    ensures DirectIsLeft(c, heads) <==> DirectIsLeft(c, heads[1..])
  {
    DirectOpen(c, heads[0]);
    assert heads == [heads[0]] + heads[1..];
    if heads[0] == CURRENT_NODE && DirectIsLeft(c, heads[1..]) {
      assert Allowed(c.net, Edge(CURRENT_NODE, c.net.contractor));
    }
  }

  lemma {:induction false} LongPathsAreNotDirect(flows: seq<Flow>, least: nat)
    requires OrderedByLength(flows, least) && least >= 2
    ensures !HasDirect(flows)
  {}

  /** A rebuild records a direct path exactly if the line to the contractor is accessible and more is free on it
      than is used before over a line of the current node to itself. */
  lemma RebuildRecordsDirect(n: Net, f: Free)
    requires n.contractor != CURRENT_NODE
    ensures HasDirect(Rebuild(n, f, 2).flows) <==> DirectIsLeft(Context(n, f, 2), Lines(n, CURRENT_NODE))
  {
    var c := Context(n, f, 2);
    var first := RebuildLevel(c);
    RebuildLevelIsRetry(c);
    RetryHasDirect(c, Lines(n, CURRENT_NODE));
    RebuildLevelBlocks(c);
    RebuildIsShortestFirst(n, first.free, 3);
    var rest := Rebuild(n, first.free, 3);
    LongPathsAreNotDirect(rest.flows, 3);
    HasDirectConcat(first.flows, rest.flows);
  }

  lemma {:induction false} NoSelfFirst(heads: seq<Node>, contractor: Node)
    requires CURRENT_NODE !in heads
    ensures !SelfComesFirst(heads, contractor)
  {
    if heads != [] {
      assert heads[0] in heads;
      NoSelfFirst(heads[1..], contractor);
    }
  }

  /** Without a line of the current node to itself, a rebuild records a direct path exactly if the direct line is
      accessible and something is free on it; and no rebuilt route has a repeated node. */
  lemma RebuildWithoutSelfLine(n: Net, f: Free)
    requires n.contractor != CURRENT_NODE && CURRENT_NODE !in Lines(n, CURRENT_NODE)
    ensures HasDirect(Rebuild(n, f, 2).flows) <==>
              Allowed(n, Edge(CURRENT_NODE, n.contractor)) && Cap(f, Edge(CURRENT_NODE, n.contractor)) > 0
    ensures forall k | 0 <= k < |Rebuild(n, f, 2).flows| :: Distinct(Rebuild(n, f, 2).flows[k].route)
  {
    RebuildRecordsDirect(n, f);
    NoSelfFirst(Lines(n, CURRENT_NODE), n.contractor);
    forall k: nat | k < |Rebuild(n, f, 2).flows| ensures Distinct(Rebuild(n, f, 2).flows[k].route) {
      RebuiltRouteIsSimple(n, f, k);
    }
  }

  lemma RebuiltRouteIsSimple(n: Net, f: Free, k: nat)
    requires n.contractor != CURRENT_NODE && CURRENT_NODE !in Lines(n, CURRENT_NODE)
    requires k < |Rebuild(n, f, 2).flows|
    ensures Distinct(Rebuild(n, f, 2).flows[k].route)
  {
    var flows := Rebuild(n, f, 2).flows;
    var r := flows[k].route;
    RebuiltPathsAreDistinct(n, f, k);
    RebuildPassesCurrentNode(n, f);
    NoSelfFirst(Lines(n, CURRENT_NODE), n.contractor);
    assert CURRENT_NODE !in Intermediates(r);
    SimpleEnds(n, r);
  }

  lemma SimpleEnds(n: Net, r: seq<Node>)
    requires IsRoute(n, MAX_PATH_LENGTH, r) && n.contractor != CURRENT_NODE
    requires Distinct(Intermediates(r)) && CURRENT_NODE !in Intermediates(r)
    ensures Distinct(r)
  {
    var s := Intermediates(r);
    forall i, j | 0 <= i < j < |r| ensures r[i] != r[j] {
      if 0 < i && j < |r| - 1 {
        assert r[i] == s[i - 1] && r[j] == s[j - 1];
      } else if i == 0 && j < |r| - 1 {
        assert r[j] == s[j - 1];
      }
    }
  }

  /** So a rebuild does record direct paths: here over the only line there is. */
  lemma RebuildDirectly()
    ensures HasDirect(Rebuild(Net(map[CURRENT_NODE := [1]], {}, 1), map[Edge(CURRENT_NODE, 1) := 7], 2).flows)
  {
    RebuildWithoutSelfLine(Net(map[CURRENT_NODE := [1]], {}, 1), map[Edge(CURRENT_NODE, 1) := 7]);
  }

  lemma PassesConcat(a: seq<Flow>, b: seq<Flow>)
    ensures PassesCurrentNode(a + b) <==> PassesCurrentNode(a) || PassesCurrentNode(b)
  {
    var s := a + b;
    if PassesCurrentNode(b) {
      var k :| 0 <= k < |b| && |b[k].route| >= 2 && CURRENT_NODE in Intermediates(b[k].route);
      assert s[|a| + k] == b[k];
    }
    if PassesCurrentNode(a) {
      var k :| 0 <= k < |a| && |a[k].route| >= 2 && CURRENT_NODE in Intermediates(a[k].route);
      assert s[k] == a[k];
    }
  }

  lemma FirstLevelIsDistinct(n: Net, f: Free, k: nat)
    requires n.contractor != CURRENT_NODE && k < |RebuildLevel(Context(n, f, 2)).flows|
    ensures Distinct(Intermediates(RebuildLevel(Context(n, f, 2)).flows[k].route))
  {
    var c := Context(n, f, 2);
    RebuildLevelIsRetry(c);
    RouteOf(n, 2, f, RebuildLevel(c), k);
  }

  lemma LaterLevelsAreDistinct(n: Net, f: Free, k: nat)
    requires n.contractor != CURRENT_NODE && Blocked(n, 2, f) && k < |Rebuild(n, f, 3).flows|
    ensures Distinct(Intermediates(Rebuild(n, f, 3).flows[k].route))
  {
    RebuildIsShortestFirst(n, f, 3);
    DistinctInside(Rebuild(n, f, 3).flows[k].route);
  }

  lemma DistinctInside(r: seq<Node>)
    requires Distinct(r)
    ensures Distinct(Intermediates(r))
  {}

  /** The intermediate nodes of every rebuilt path are pairwise distinct, and fewer than six. */
  lemma RebuiltPathsAreDistinct(n: Net, f: Free, k: nat)
    requires n.contractor != CURRENT_NODE && k < |Rebuild(n, f, 2).flows|
    ensures var r := Rebuild(n, f, 2).flows[k].route;
      IsRoute(n, MAX_PATH_LENGTH, r) && Distinct(Intermediates(r)) && |Intermediates(r)| < MAX_PATH_LENGTH
  {
    RebuildIsRun(n, f, 2);
    RouteOf(n, MAX_PATH_LENGTH, f, Rebuild(n, f, 2), k);
    var first := RebuildLevel(Context(n, f, 2));
    if k < |first.flows| {
      FirstLevelIsDistinct(n, f, k);
    } else {
      RebuildLevelBlocks(Context(n, f, 2));
      LaterLevelsAreDistinct(n, first.free, k - |first.flows|);
    }
  }

  // ----- When a rebuild throws

  /** What the paths over `length` lines carry together. */
  function TotalOver(flows: seq<Flow>, length: nat): nat {
    if flows == [] then 0
    else (if |flows[0].route| == length + 1 then flows[0].amount else 0) + TotalOver(flows[1..], length)
  }

  lemma {:induction false} TotalOverConcat(a: seq<Flow>, b: seq<Flow>, length: nat)
    ensures TotalOver(a + b, length) == TotalOver(a, length) + TotalOver(b, length)
  {
    if a == [] {
      assert a + b == b;
    } else {
      assert (a + b)[1..] == a[1..] + b;
      TotalOverConcat(a[1..], b, length);
    }
  }

  lemma {:induction false} TotalOverOther(flows: seq<Flow>, length: nat)
    requires forall k | 0 <= k < |flows| :: |flows[k].route| != length + 1
    ensures TotalOver(flows, length) == 0
  {
    if flows != [] {
      TotalOverOther(flows[1..], length);
    }
  }

  lemma {:induction false} TotalOfOneLength(flows: seq<Flow>, length: nat)
    requires forall k | 0 <= k < |flows| :: |flows[k].route| == length + 1
    ensures TotalOver(flows, length) == Total(flows)
  {
    if flows != [] {
      TotalOfOneLength(flows[1..], length);
    }
  }

  lemma {:induction false} TotalOfTwoLengths(flows: seq<Flow>)
    requires forall k | 0 <= k < |flows| :: |flows[k].route| in {2, 3}
    ensures TotalOver(flows, 1) + TotalOver(flows, 2) == Total(flows)
  {
    if flows != [] {
      TotalOfTwoLengths(flows[1..]);
    }
  }

  lemma TotalsApart(first: seq<Flow>, rest: seq<Flow>, length: nat)
    requires AllSimple(first, length) && OrderedByLength(rest, length + 1)
    ensures forall k: nat ::
      TotalOver(first + rest, k) == if k == length then Total(first) else TotalOver(rest, k)
  {
    forall k: nat
      ensures TotalOver(first + rest, k) == if k == length then Total(first) else TotalOver(rest, k)
    {
      TotalOverConcat(first, rest, k);
      if k == length {
        TotalOfOneLength(first, length);
        TotalOverOther(rest, length);
      } else {
        TotalOverOther(first, k);
      }
    }
  }

  lemma FitsNext(n: Net, f: Free, limit: nat, bound: nat)
    requires 1 <= limit <= MAX_PATH_LENGTH
    ensures var first := RebuildLevel(Context(n, f, limit));
      && (RebuildFits(n, f, limit, bound)
          <==> Total(first.flows) <= bound && RebuildFits(n, first.free, limit + 1, bound))
      && Rebuild(n, f, limit).flows == first.flows + Rebuild(n, first.free, limit + 1).flows
  {}

  /** No length from `least` on carries more than `bound`. */
  predicate LengthsFit(flows: seq<Flow>, least: nat, bound: nat) {
    forall k: nat | least <= k <= 6 :: TotalOver(flows, k) <= bound
  }

  lemma LengthsFitNext(first: seq<Flow>, rest: seq<Flow>, length: nat, bound: nat)
    requires AllSimple(first, length) && OrderedByLength(rest, length + 1) && length <= 6
    ensures LengthsFit(first + rest, length, bound) <==> Total(first) <= bound && LengthsFit(rest, length + 1, bound)
  {
    TotalsApart(first, rest, length);
    assert TotalOver(first + rest, length) == Total(first);
    if LengthsFit(first + rest, length, bound) {
      forall k: nat | length + 1 <= k <= 6 ensures TotalOver(rest, k) <= bound {
        assert TotalOver(first + rest, k) == TotalOver(rest, k);
      }
    }
  }

  lemma {:induction false} FitsByLength(n: Net, f: Free, limit: nat, bound: nat)
    requires 3 <= limit <= MAX_PATH_LENGTH + 1 && n.contractor != CURRENT_NODE && Blocked(n, limit - 1, f)
    ensures RebuildFits(n, f, limit, bound) <==> LengthsFit(Rebuild(n, f, limit).flows, limit, bound)
    decreases MAX_PATH_LENGTH + 1 - limit
  {
    if limit <= MAX_PATH_LENGTH {
      hide RebuildFits, Rebuild, RebuildLevel, Blocked, IsRun, AllSimple, OrderedByLength, LengthsFit;
      var c := Context(n, f, limit);
      var first := RebuildLevel(c);
      var rest := Rebuild(n, first.free, limit + 1);
      RebuildLevelIsRetry(c);
      LevelIsSimple(n, limit, f, first);
      RebuildLevelBlocks(c);
      RebuildIsShortestFirst(n, first.free, limit + 1);
      FitsByLength(n, first.free, limit + 1, bound);
      FitsNext(n, f, limit, bound);
      LengthsFitNext(first.flows, rest.flows, limit, bound);
    }
  }

  lemma TotalsOfFirst(first: seq<Flow>, rest: seq<Flow>)
    requires forall k | 0 <= k < |first| :: |first[k].route| in {2, 3}
    requires OrderedByLength(rest, 3)
    ensures TotalOver(first + rest, 1) + TotalOver(first + rest, 2) == Total(first)
    ensures forall k: nat | k >= 3 :: TotalOver(first + rest, k) == TotalOver(rest, k)
  {
    TotalOfTwoLengths(first);
    TotalOverConcat(first, rest, 1);
    TotalOverConcat(first, rest, 2);
    TotalOverOther(rest, 1);
    TotalOverOther(rest, 2);
    forall k: nat | k >= 3 ensures TotalOver(first + rest, k) == TotalOver(rest, k) {
      TotalOverConcat(first, rest, k);
      TotalOverOther(first, k);
    }
  }

  /** A rebuild throws exactly if the direct paths and those over two lines carry too much together, or the paths over
      as many other lines do. */
  lemma RebuildFitsExactly(n: Net, f: Free, bound: nat)
    requires n.contractor != CURRENT_NODE
    ensures var flows := Rebuild(n, f, 2).flows;
      RebuildFits(n, f, 2, bound) <==>
      TotalOver(flows, 1) + TotalOver(flows, 2) <= bound && LengthsFit(flows, 3, bound)
  {
    hide RebuildFits, Rebuild, RebuildLevel, Blocked, OrderedByLength;
    var c := Context(n, f, 2);
    var first := RebuildLevel(c);
    RebuildLevelIsRetry(c);
    RebuildLevelBlocks(c);
    forall k | 0 <= k < |first.flows| ensures |first.flows[k].route| in {2, 3} {
      RouteOf(n, 2, f, first, k);
    }
    FitsByLength(n, first.free, 3, bound);
    RebuildIsShortestFirst(n, first.free, 3);
    FitsNext(n, f, 2, bound);
    var rest := Rebuild(n, first.free, 3);
    var flows := Rebuild(n, f, 2).flows;
    TotalsOfFirst(first.flows, rest.flows);
    assert flows == first.flows + rest.flows;
    assert RebuildFits(n, f, 2, bound) <==> Total(first.flows) <= bound && LengthsFit(rest.flows, 3, bound);
    assert TotalOver(flows, 1) + TotalOver(flows, 2) == Total(first.flows);
    assert LengthsFit(flows, 3, bound) <==> LengthsFit(rest.flows, 3, bound);
  }

  /** Rebuilt paths keep off the inaccessible nodes and the contractor. */
  lemma RebuiltPathsKeepOff(n: Net, f: Free, k: nat, v: Node)
    requires n.contractor != CURRENT_NODE && k < |Rebuild(n, f, 2).flows|
    ensures |PathsOf(Rebuild(n, f, 2).flows)| == |Rebuild(n, f, 2).flows|
    ensures v in PathsOf(Rebuild(n, f, 2).flows)[k] ==> v !in n.inaccessible && v != n.contractor
  {
    var flows := Rebuild(n, f, 2).flows;
    RebuildIsRun(n, f, 2);
    RouteOf(n, MAX_PATH_LENGTH, f, Rebuild(n, f, 2), k);
    RecordedNodes(flows, k);
    PathValidity(n, MAX_PATH_LENGTH, flows[k].route);
  }
}
