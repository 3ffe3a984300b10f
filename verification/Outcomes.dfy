/** What the loops still have to do, so that an iteration can be matched with a step of its function. */
module Outcomes {
  import opened Wrappers
  import opened Network
  import opened Search
  import opened Levels
  import opened Builds

  /** The free amounts and the recorded paths at the end. */
  datatype Outcome = Outcome(free: Free, paths: seq<seq<Node>>)

  function Finish(paths: seq<seq<Node>>, run: Run): Outcome {
    Outcome(run.free, paths + PathsOf(run.flows))
  }

  lemma FinishLater(paths: seq<seq<Node>>, first: Run, rest: Run)
    ensures Finish(paths, Run(rest.free, first.flows + rest.flows))
         == Finish(paths + PathsOf(first.flows), rest)
  {
    PathsOfConcat(first.flows, rest.flows);
    assert paths + (PathsOf(first.flows) + PathsOf(rest.flows)) == paths + PathsOf(first.flows) + PathsOf(rest.flows);
  }

  /** One search along the line to `head`, with the line used after a success. */
  ghost predicate Tried(c: Context, head: Node, paths: seq<seq<Node>>, flow: nat, f: Free, paths': seq<seq<Node>>)
    requires c.limit >= 1 && head in Lines(c.net, CURRENT_NODE)
  {
    var res := Attempt(c, head);
    if res.NotFound? then
      flow == 0 && f == c.free && paths' == paths
    else
      flow == res.amount > 0 && f == After(c, head) && paths' == paths + [Intermediates(res.route)]
  }

  lemma TriedAfterSearch(c: Context, head: Node, paths: seq<seq<Node>>, flow: nat, f: Free, paths': seq<seq<Node>>)
    requires c.limit >= 1 && head in Lines(c.net, CURRENT_NODE) && head !in c.net.inaccessible
    requires Leaves(FromNode(c, [], head, Cap(c.free, Edge(CURRENT_NODE, head)), 1), c.free, [], paths, flow, f, paths')
    ensures flow > 0 ==> Edge(CURRENT_NODE, head) in f && flow <= f[Edge(CURRENT_NODE, head)]
    ensures Tried(c, head, paths, flow, Lowered(f, Edge(CURRENT_NODE, head), flow), paths')
  {
    var res := Attempt(c, head);
    if res.Found? {
      AttemptSound(c, head);
      var rest := FromNode(c, [], head, Cap(c.free, Edge(CURRENT_NODE, head)), 1);
      assert Hop(res.route, 0) == Edge(CURRENT_NODE, head);
      assert res.route[1..] == rest.route;
      AugmentStep(c.free, res.route, res.amount);
      assert [] + rest.route[..|rest.route| - 1] == Intermediates(res.route);
    }
  }

  // ----- Retrying

  lemma RetryStep(c: Context, heads: seq<Node>, i: nat, paths: seq<seq<Node>>,
                  flow: nat, f: Free, paths': seq<seq<Node>>)
    requires c.limit >= 1 && Heads(c.net, heads) && i < |heads|
    requires Tried(c, heads[i], paths, flow, f, paths')
    ensures flow == 0 ==> Finish(paths, Retry(c, heads[i..])) == Finish(paths', Retry(c, heads[i + 1..]))
    ensures flow > 0 ==>
              Finish(paths, Retry(c, heads[i..])) == Finish(paths', Retry(c.(free := f), heads[i..]))
    ensures flow > 0 ==> Cap(f, Edge(CURRENT_NODE, heads[i])) < Cap(c.free, Edge(CURRENT_NODE, heads[i]))
  {
    assert heads[i..][0] == heads[i] && heads[i..][1..] == heads[i + 1..];
    if flow > 0 {
      AfterLowers(c, heads[i]);
      var flows := [Flow(Attempt(c, heads[i]).route, Attempt(c, heads[i]).amount)];
      assert flows[1..] == [];
      assert PathsOf(flows) == [Intermediates(flows[0].route)];
      FinishLater(paths, Run(f, flows), Retry(c.(free := f), heads[i..]));
    }
  }

  /** A line with nothing free may be passed over. */
  lemma TriedUsedUp(c: Context, head: Node, paths: seq<seq<Node>>)
    requires c.limit >= 1 && head in Lines(c.net, CURRENT_NODE)
    requires Cap(c.free, Edge(CURRENT_NODE, head)) == 0 || head in c.net.inaccessible
    ensures Tried(c, head, paths, 0, c.free, paths)
  {
    if head !in c.net.inaccessible {
      AttemptOnUsedUp(c, head);
    }
  }

  // ----- Gateways first

  lemma GatewayStep(c: Context, heads: seq<Node>, gateways: seq<Node>, paths: seq<seq<Node>>,
                    flow: nat, f: Free, paths': seq<seq<Node>>)
    requires c.limit >= 1 && Heads(c.net, heads) && gateways != []
    requires if gateways[0] in heads then Tried(c, gateways[0], paths, flow, f, paths')
             else f == c.free && paths' == paths
    ensures Heads(c.net, RemoveFirst(heads, gateways[0]))
    ensures Finish(paths, GatewaysFirst(c, heads, gateways))
         == Finish(paths', GatewaysFirst(c.(free := f), RemoveFirst(heads, gateways[0]), gateways[1..]))
  {
    RemoveFirstHeads(c.net, heads, gateways[0]);
    var first := TryOnce(c, heads, gateways[0]);
    if first.flows != [] {
      assert first.flows[1..] == [];
      assert PathsOf(first.flows) == [Intermediates(first.flows[0].route)];
    }
    FinishLater(paths, first, GatewaysFirst(c.(free := f), RemoveFirst(heads, gateways[0]), gateways[1..]));
    assert paths + [] == paths;
  }

  lemma {:induction false} RemoveFirstAt(s: seq<Node>, x: Node, i: nat)
    requires i < |s| && s[i] == x && x !in s[..i]
    ensures RemoveFirst(s, x) == s[..i] + s[i + 1..]
  {
    if i > 0 {
      assert s[0] in s[..i];
      assert s[1..][..i - 1] == s[..i][1..];
      RemoveFirstAt(s[1..], x, i - 1);
      assert s[1..][i..] == s[i + 1..];
    }
  }

  // ----- Restarting

  lemma FirstSuccessStep(c: Context, heads: seq<Node>, i: nat)
    requires c.limit >= 1 && Heads(c.net, heads) && i < |heads|
    ensures FirstSuccess(c, heads[i..])
         == if Attempt(c, heads[i]).Found? then Attempt(c, heads[i]) else FirstSuccess(c, heads[i + 1..])
  {
    assert heads[i..][0] == heads[i] && heads[i..][1..] == heads[i + 1..];
  }

  lemma RestartStep(c: Context, heads: seq<Node>, head: Node, paths: seq<seq<Node>>,
                    flow: nat, f: Free, paths': seq<seq<Node>>)
    requires c.limit >= 1 && Heads(c.net, heads) && head in heads && flow > 0
    requires Tried(c, head, paths, flow, f, paths') && FirstSuccess(c, heads) == Attempt(c, head)
    ensures Finish(paths, Restart(c, heads)) == Finish(paths', Restart(c.(free := f), heads))
    ensures Total(Restart(c, heads).flows) == flow + Total(Restart(c.(free := f), heads).flows)
    ensures HeadSum(f, heads) < HeadSum(c.free, heads)
  {
    AttemptSound(c, head);
    AfterLowers(c, head);
    HeadSumShrinks(f, c.free, heads, head);
    var flows := [Flow(Attempt(c, head).route, Attempt(c, head).amount)];
    var rest := Restart(c.(free := f), heads);
    assert flows[1..] == [];
    assert PathsOf(flows) == [Intermediates(flows[0].route)];
    FinishLater(paths, Run(f, flows), rest);
    assert (flows + rest.flows)[1..] == rest.flows;
  }

  // ----- Levels

  lemma BuildStep(n: Net, f: Free, limit: nat, gateways: seq<Node>, paths: seq<seq<Node>>, after: Outcome)
    requires 1 <= limit <= MAX_PATH_LENGTH
    requires after == Finish(paths, BuildLevel(Context(n, f, limit), gateways))
    ensures Finish(paths, Build(n, f, limit, gateways))
         == Finish(after.paths, Build(n, after.free, limit + 1, gateways))
  {
    FinishLater(paths, BuildLevel(Context(n, f, limit), gateways), Build(n, after.free, limit + 1, gateways));
  }

  /** How a rebuild ends from a level on: not at all well if some level adds up to more than `bound`. */
  ghost function RebuildEnd(n: Net, f: Free, limit: nat, paths: seq<seq<Node>>, bound: nat): Option<Outcome>
    requires 1 <= limit <= MAX_PATH_LENGTH + 1
  {
    if RebuildFits(n, f, limit, bound) then Some(Finish(paths, Rebuild(n, f, limit))) else None
  }

  lemma RebuildStep(n: Net, f: Free, limit: nat, paths: seq<seq<Node>>, after: Outcome, bound: nat)
    requires 1 <= limit <= MAX_PATH_LENGTH
    requires Total(RebuildLevel(Context(n, f, limit)).flows) <= bound
    requires after == Finish(paths, RebuildLevel(Context(n, f, limit)))
    ensures RebuildEnd(n, f, limit, paths, bound) == RebuildEnd(n, after.free, limit + 1, after.paths, bound)
  {
    FinishLater(paths, RebuildLevel(Context(n, f, limit)), Rebuild(n, after.free, limit + 1));
  }

  lemma BuildDone(n: Net, f: Free, gateways: seq<Node>, paths: seq<seq<Node>>)
    ensures Finish(paths, Build(n, f, MAX_PATH_LENGTH + 1, gateways)) == Outcome(f, paths)
  {
    assert paths + [] == paths;
  }

  lemma RebuildDone(n: Net, f: Free, paths: seq<seq<Node>>, bound: nat)
    ensures RebuildEnd(n, f, MAX_PATH_LENGTH + 1, paths, bound) == Some(Outcome(f, paths))
  {
    assert paths + [] == paths;
  }
}
