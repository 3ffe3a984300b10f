/** The objects of the program: trust lines whose used amounts the search changes in place, the topology
    that owns them, and the manager that searches and records paths. */
module Paths {
  import opened Amounts
  import opened Wrappers
  import opened Network
  import opened Search
  import opened Levels
  import opened Builds
  import opened Gateways
  import opened Outcomes

  class TopologyTrustLine {
    const sourceID: Node
    const targetID: Node
    var amount: nat
    var usedAmount: nat

    constructor (sourceID: Node, targetID: Node, amount: nat)
      ensures this.sourceID == sourceID && this.targetID == targetID
      ensures this.amount == amount && usedAmount == 0
    {
      this.sourceID := sourceID;
      this.targetID := targetID;
      this.amount := amount;
      this.usedAmount := 0;
    }

    function Line(): Edge {
      Edge(sourceID, targetID)
    }

    /** The checked subtraction throws if more is used than there is. */
    function FreeAmount(): nat
      requires usedAmount <= amount
      reads this
    {
      amount - usedAmount
    }

    /** The checked addition throws beyond the largest amount, and changes nothing then. */
    method AddUsedAmount(a: nat) returns (ok: bool)
      modifies this`usedAmount
      ensures ok <==> old(usedAmount) + a <= MAX_AMOUNT
      ensures usedAmount == old(usedAmount) + if ok then a else 0
    {
      ok := usedAmount + a <= MAX_AMOUNT;
      if ok {
        usedAmount := usedAmount + a;
      }
    }

    method SetUsedAmount(a: nat)
      modifies this`usedAmount
      ensures usedAmount == a
    {
      usedAmount := a;
    }

    method SetAmount(a: nat)
      modifies this`amount
      ensures amount == a
    {
      amount := a;
    }
  }

  function Targets(lines: seq<TopologyTrustLine>): (ts: seq<Node>)
    ensures |ts| == |lines| && forall i | 0 <= i < |lines| :: ts[i] == lines[i].targetID
  {
    if lines == [] then [] else [lines[0].targetID] + Targets(lines[1..])
  }

  /** The position of the first line to a node. */
  method FirstTo(trustLines: seq<TopologyTrustLine>, target: Node) returns (i: nat)
    ensures i <= |trustLines| && target !in Targets(trustLines)[..i]
    ensures i < |trustLines| ==> trustLines[i].targetID == target
    ensures i < |trustLines| <==> target in Targets(trustLines)
  {
    i := 0;
    while i < |trustLines| && trustLines[i].targetID != target
      invariant i <= |trustLines| && target !in Targets(trustLines)[..i]
    {
      i := i + 1;
    }
    assert i == |trustLines| ==> Targets(trustLines)[..i] == Targets(trustLines);
    assert i < |trustLines| ==> Targets(trustLines)[i] == target;
  }

  type LineTable = map<Node, seq<TopologyTrustLine>>

  /** The table as a graph. */
  ghost function Graph(table: LineTable): map<Node, seq<Node>> {
    map u | u in table :: Targets(table[u])
  }

  function LinesFrom(table: LineTable, u: Node): seq<TopologyTrustLine> {
    if u in table then table[u] else []
  }

  function TargetsFrom(table: LineTable, u: Node): seq<Node> {
    Targets(LinesFrom(table, u))
  }

  function Appended(table: LineTable, line: TopologyTrustLine): LineTable {
    table[line.sourceID := LinesFrom(table, line.sourceID) + [line]]
  }

  function Erased(table: LineTable, u: Node, i: nat): LineTable
    requires u in table && i < |table[u]|
  {
    var rest := table[u][..i] + table[u][i + 1..];
    if rest == [] then table - {u} else table[u := rest]
  }

  lemma TargetsAppended(table: LineTable, line: TopologyTrustLine, u: Node)
    ensures TargetsFrom(Appended(table, line), u)
         == TargetsFrom(table, u) + if u == line.sourceID then [line.targetID] else []
  {
    assert u == line.sourceID ==>
      TargetsFrom(Appended(table, line), u) == TargetsFrom(table, u) + [line.targetID];
  }

  lemma TargetsErased(table: LineTable, v: Node, i: nat, u: Node)
    requires v in table && i < |table[v]|
    ensures TargetsFrom(Erased(table, v, i), u)
         == var ts := TargetsFrom(table, u); if u == v then ts[..i] + ts[i + 1..] else ts
  {
    var rest := table[v][..i] + table[v][i + 1..];
    assert Targets(rest) == Targets(table[v])[..i] + Targets(table[v])[i + 1..];
  }

  /** There are no other lines and no other free amounts than those of the table, and each line is in it once. */
  ghost predicate OnlyLines(table: LineTable, repr: set<TopologyTrustLine>, edges: set<Edge>) {
    && (forall l | l in repr :: l.sourceID in table && l in table[l.sourceID])
    && edges == LinesOf(repr)
    && (forall u | u in table :: NoTwice(table[u]))
  }

  lemma FreeLineIsFiled(table: LineTable, repr: set<TopologyTrustLine>, edges: set<Edge>, e: Edge)
    requires OnlyLines(table, repr, edges) && e in edges
    ensures e.target in TargetsFrom(table, e.source)
  {
    var l :| l in repr && l.Line() == e;
    var i :| 0 <= i < |table[e.source]| && table[e.source][i] == l;
    assert Targets(table[e.source])[i] == e.target;
  }

  ghost function LinesOf(repr: set<TopologyTrustLine>): set<Edge> {
    set l | l in repr :: l.Line()
  }

  predicate NoTwice(lines: seq<TopologyTrustLine>) {
    forall i, j | 0 <= i < j < |lines| :: lines[i] != lines[j]
  }

  lemma OnlyLinesAppended(table: LineTable, repr: set<TopologyTrustLine>, edges: set<Edge>, line: TopologyTrustLine)
    requires OnlyLines(table, repr, edges) && line !in repr
    requires forall u, i | u in table && 0 <= i < |table[u]| :: table[u][i] in repr
    ensures OnlyLines(Appended(table, line), repr + {line}, edges + {line.Line()})
  {
    var lines := LinesFrom(table, line.sourceID);
    assert forall i | 0 <= i < |lines| :: lines[i] in repr;
    assert LinesOf(repr + {line}) == LinesOf(repr) + {line.Line()};
  }

  lemma OnlyLinesErased(table: LineTable, repr: set<TopologyTrustLine>, edges: set<Edge>, u: Node, i: nat)
    requires OnlyLines(table, repr, edges) && u in table && i < |table[u]|
    requires forall v, k | v in table && 0 <= k < |table[v]| :: table[v][k] in repr && table[v][k].sourceID == v
    requires Once(repr)
    ensures OnlyLines(Erased(table, u, i), repr - {table[u][i]}, edges - {table[u][i].Line()})
  {
    var lines, line := table[u], table[u][i];
    var rest := lines[..i] + lines[i + 1..];
    var after := Erased(table, u, i);
    assert LinesOf(repr - {line}) == LinesOf(repr) - {line.Line()};
    forall l | l in repr - {line} ensures l.sourceID in after && l in after[l.sourceID] {
      if l.sourceID == u {
        var k :| 0 <= k < |lines| && lines[k] == l;
        assert rest[if k < i then k else k - 1] == l;
      }
    }
  }

  /** What is free of a line and what is used make up its amount. */
  ghost predicate InStep(repr: set<TopologyTrustLine>, free: Free)
    reads repr
  {
    forall l | l in repr :: l.Line() in free && free[l.Line()] + l.usedAmount == l.amount <= MAX_AMOUNT
  }

  lemma InStepAppended(repr: set<TopologyTrustLine>, free: Free, line: TopologyTrustLine)
    requires InStep(repr, free) && line.Line() !in free && line.usedAmount <= line.amount <= MAX_AMOUNT
    ensures InStep(repr + {line}, free[line.Line() := line.amount - line.usedAmount])
    ensures free[line.Line() := line.amount - line.usedAmount].Keys == free.Keys + {line.Line()}
  {}

  lemma FiledAppended(table: LineTable, repr: set<TopologyTrustLine>, line: TopologyTrustLine)
    requires Filed(table, repr)
    ensures Filed(Appended(table, line), repr + {line})
  {}

  /** No two lines join the same nodes. */
  ghost predicate Once(repr: set<TopologyTrustLine>) {
    forall l, m | l in repr && m in repr && l.Line() == m.Line() :: l == m
  }

  lemma AllAppended(table: LineTable, repr: set<TopologyTrustLine>, free: Free, line: TopologyTrustLine)
    requires Filed(table, repr) && Once(repr) && InStep(repr, free) && OnlyLines(table, repr, free.Keys)
    requires line !in repr && line.Line() !in free && line.usedAmount <= line.amount <= MAX_AMOUNT
    ensures var lines, more := repr + {line}, free[line.Line() := line.amount - line.usedAmount];
      && Filed(Appended(table, line), lines) && Once(lines) && InStep(lines, more)
      && OnlyLines(Appended(table, line), lines, more.Keys)
  {
    OnlyLinesAppended(table, repr, free.Keys, line);
    FiledAppended(table, repr, line);
    NotThere(table, repr, free.Keys, line);
    InStepAppended(repr, free, line);
  }

  lemma NotThere(table: LineTable, repr: set<TopologyTrustLine>, edges: set<Edge>, line: TopologyTrustLine)
    requires OnlyLines(table, repr, edges)
    ensures line.Line() !in edges && Once(repr) ==> Once(repr + {line})
    ensures line.Line() !in edges ==> forall l | l in repr :: l.Line() != line.Line()
  {}

  /** Each line of the table is filed under its source. */
  ghost predicate Filed(table: LineTable, repr: set<TopologyTrustLine>) {
    forall u, i | u in table && 0 <= i < |table[u]| :: table[u][i] in repr && table[u][i].sourceID == u
  }

  lemma FiledErased(table: LineTable, repr: set<TopologyTrustLine>, u: Node, i: nat)
    requires Filed(table, repr) && u in table && i < |table[u]| && NoTwice(table[u])
    ensures Filed(Erased(table, u, i), repr - {table[u][i]})
  {
    var rest := table[u][..i] + table[u][i + 1..];
    forall k | 0 <= k < |rest| ensures rest[k] in repr && rest[k] != table[u][i] && rest[k].sourceID == u {
      assert rest[k] == table[u][if k < i then k else k + 1];
    }
  }

  /** The targets of a node after a line to `target` is reported with `amount`. */
  function Reported(targets: seq<Node>, target: Node, amount: nat): seq<Node> {
    if amount == 0 then RemoveFirst(targets, target)
    else if target in targets then targets
    else targets + [target]
  }

  function TargetsAfter(table: LineTable, e: Edge, amount: nat, u: Node): seq<Node> {
    if u == e.source then Reported(TargetsFrom(table, u), e.target, amount) else TargetsFrom(table, u)
  }

  /** The table after the report, where `i` is the position of the line between the two nodes. */
  lemma TargetsReported(table: LineTable, trustLine: TopologyTrustLine, i: nat, amount: nat, v: Node)
    requires var lines := LinesFrom(table, trustLine.sourceID);
      i <= |lines| && trustLine.targetID !in Targets(lines)[..i] &&
      (i < |lines| ==> lines[i].targetID == trustLine.targetID) &&
      (i < |lines| <==> trustLine.targetID in Targets(lines))
    ensures var lines := LinesFrom(table, trustLine.sourceID);
      var after := if i == |lines| then if amount == 0 then table else Appended(table, trustLine)
                   else if amount == 0 then Erased(table, trustLine.sourceID, i) else table;
      TargetsFrom(after, v) == TargetsAfter(table, trustLine.Line(), amount, v)
  {
    hide Targets;
    var u, t := trustLine.sourceID, trustLine.targetID;
    if i == |LinesFrom(table, u)| {
      TargetsAppended(table, trustLine, v);
      RemoveFirstKeeps(TargetsFrom(table, u), t, t);
    } else {
      TargetsErased(table, u, i, v);
      RemoveFirstAt(TargetsFrom(table, u), t, i);
    }
  }

  class TopologyTrustLinesManager {
    var msTrustLines: LineTable
    var mGateways: set<Node>
    /** All lines, and what is free on each. */
    ghost var repr: set<TopologyTrustLine>
    ghost var free: Free

    /** Lines are filed under their sources, at most one for every target. */
    ghost predicate Valid()
      reads this`msTrustLines, this`repr, this`free, repr
    {
      && Filed(msTrustLines, repr)
      && Once(repr)
      && InStep(repr, free)
      && OnlyLines(msTrustLines, repr, free.Keys)
    }

    constructor (iAmGateway: bool)
      ensures Valid() && msTrustLines == map[] && repr == {} && free == map[]
      ensures mGateways == if iAmGateway then {CURRENT_NODE} else {}
    {
      msTrustLines, repr, free := map[], {}, map[];
      mGateways := if iAmGateway then {CURRENT_NODE} else {};
    }

    method AddGateway(gateway: Node)
      modifies this`mGateways
      ensures mGateways == old(mGateways) + {gateway}
    {
      mGateways := mGateways + {gateway};
    }

    method Append(trustLine: TopologyTrustLine)
      requires Valid() && trustLine !in repr && trustLine.Line() !in free
      requires trustLine.usedAmount <= trustLine.amount <= MAX_AMOUNT
      modifies this`msTrustLines, this`repr, this`free
      ensures Valid() && msTrustLines == Appended(old(msTrustLines), trustLine)
      ensures free == old(free)[trustLine.Line() := trustLine.amount - trustLine.usedAmount]
    {
      hide OnlyLines, Filed, Appended, Once, InStep;
      AllAppended(msTrustLines, repr, free, trustLine);
      msTrustLines := Appended(msTrustLines, trustLine);
      repr := repr + {trustLine};
      free := free[trustLine.Line() := trustLine.amount - trustLine.usedAmount];
    }

    method Erase(u: Node, i: nat)
      requires Valid() && u in msTrustLines && i < |msTrustLines[u]|
      modifies this`msTrustLines, this`repr, this`free
      ensures Valid() && msTrustLines == Erased(old(msTrustLines), u, i)
      ensures free == old(free) - {old(msTrustLines)[u][i].Line()}
    {
      OnlyLinesErased(msTrustLines, repr, free.Keys, u, i);
      FiledErased(msTrustLines, repr, u, i);
      hide OnlyLines, Filed, Erased;
      var line := msTrustLines[u][i];
      msTrustLines := Erased(msTrustLines, u, i);
      repr := repr - {line};
      free := free - {line.Line()};
    }

    method Resize(line: TopologyTrustLine, amount: nat)
      requires Valid() && line in repr && line.usedAmount <= amount <= MAX_AMOUNT
      modifies line`amount, this`free
      ensures Valid() && line.amount == amount && free == old(free)[line.Line() := amount - line.usedAmount]
    {
      line.SetAmount(amount);
      free := free[line.Line() := amount - line.usedAmount];
    }

    /** Takes in a reported line: it replaces the amount of the line between the same nodes, if there is one, and an
        amount of zero takes that line out. As long as no more is used than the new amount, the topology stays valid. */
    method AddTrustLine(trustLine: TopologyTrustLine) returns (ghost used: nat)
      requires Valid() && trustLine !in repr && trustLine.usedAmount == 0 && trustLine.amount <= MAX_AMOUNT
      modifies this`msTrustLines, this`repr, this`free, repr`amount
      ensures forall u :: TargetsFrom(msTrustLines, u)
                       == TargetsAfter(old(msTrustLines), trustLine.Line(), old(trustLine.amount), u)
      ensures forall l | l in old(repr) && l.Line() == trustLine.Line() :: used == l.usedAmount
      ensures trustLine.Line() !in old(free) ==> used == 0
      ensures old(trustLine.amount) == 0 || used <= old(trustLine.amount) ==> Valid()
      ensures old(trustLine.amount) == 0 ==> free == old(free) - {trustLine.Line()}
      ensures used <= old(trustLine.amount) && old(trustLine.amount) > 0 ==>
                free == old(free)[trustLine.Line() := old(trustLine.amount) - used]
    {
      hide OnlyLines, Filed, Appended, Erased, TargetsFrom;
      var u, t, amount := trustLine.sourceID, trustLine.targetID, trustLine.amount;
      ghost var table := msTrustLines;
      var lines := TrustLines(u);
      var i := FirstTo(lines, t);
      ListedOnce(lines, i, trustLine);
      used := 0;
      if i == |lines| {
        assert free - {trustLine.Line()} == free;
        if amount > 0 {
          Append(trustLine);
        }
      } else {
        var line := lines[i];
        used := line.usedAmount;
        if amount == 0 {
          Erase(u, i);
          line.SetAmount(0);
        } else if line.usedAmount <= amount {
          Resize(line, amount);
        } else {
          line.SetAmount(amount);
        }
      }
      forall v ensures TargetsFrom(msTrustLines, v) == TargetsAfter(table, trustLine.Line(), amount, v) {
        TargetsReported(table, trustLine, i, amount, v);
      }
    }

    /** The first line to a target is the one between the two nodes; if there is none, neither is there a free amount
        of it. */
    lemma ListedOnce(lines: seq<TopologyTrustLine>, i: nat, trustLine: TopologyTrustLine)
      requires Valid() && lines == LinesFrom(msTrustLines, trustLine.sourceID) && i <= |lines|
      requires i < |lines| <==> trustLine.targetID in Targets(lines)
      requires i < |lines| ==> lines[i].targetID == trustLine.targetID
      ensures i < |lines| ==>
                trustLine.sourceID in msTrustLines && lines[i] in repr && lines[i].Line() == trustLine.Line()
      ensures i == |lines| ==> trustLine.Line() !in free && forall l | l in repr :: l.Line() != trustLine.Line()
    {
      if i == |lines| {
        forall l | l in repr ensures l.Line() != trustLine.Line() {
          if l.sourceID == trustLine.sourceID {
            var k :| 0 <= k < |lines| && lines[k] == l;
            assert Targets(lines)[k] == l.targetID;
          }
        }
      }
    }

    /** The lines of a node, in the order in which its set is walked. */
    function TrustLines(nodeID: Node): (lines: seq<TopologyTrustLine>)
      requires Valid()
      reads this`msTrustLines, this`repr, this`free, repr
      ensures forall l | l in lines :: l in repr && l.sourceID == nodeID
      ensures Targets(lines) == (if nodeID in msTrustLines then Targets(msTrustLines[nodeID]) else [])
    {
      if nodeID in msTrustLines then msTrustLines[nodeID] else []
    }

    /** Uses `a` more of a line. */
    method Use(l: TopologyTrustLine, a: nat)
      requires Valid() && l in repr && a <= free[l.Line()]
      modifies l`usedAmount, this`free
      ensures Valid()
      ensures free == Lowered(old(free), l.Line(), a)
    {
      var ok := l.AddUsedAmount(a);
      free := Lowered(free, l.Line(), a);
    }

    /** Goes through the lines of a node for the one to another node. */
    method FindLine(sourceID: Node, targetID: Node) returns (line: TopologyTrustLine?)
      requires Valid()
      ensures line == null <==> Edge(sourceID, targetID) !in free
      ensures line != null ==> line in repr && line.Line() == Edge(sourceID, targetID)
    {
      var lines := TrustLines(sourceID);
      for i := 0 to |lines|
        invariant forall k | 0 <= k < i :: lines[k].targetID != targetID
      {
        if lines[i].targetID == targetID {
          return lines[i];
        }
      }
      return null;
    }

    /** Uses more of the line from one node to another, if there is one. An amount beyond what is free is not
        refused here: the next subtraction of what is used throws. */
    method AddUsedAmount(sourceID: Node, targetID: Node, amount: nat) returns (ok: bool)
      requires Valid()
      modifies repr`usedAmount, this`free
      ensures ok <==> forall l | l in repr && l.Line() == Edge(sourceID, targetID) ::
                        old(l.usedAmount) + amount <= MAX_AMOUNT
      ensures forall l | l in repr ::
        l.usedAmount == old(l.usedAmount) + if ok && l.Line() == Edge(sourceID, targetID) then amount else 0
      ensures Edge(sourceID, targetID) !in old(free) ==> Valid() && free == old(free)
      ensures amount <= Cap(old(free), Edge(sourceID, targetID)) ==>
                ok && Valid() && free == Lowered(old(free), Edge(sourceID, targetID), amount)
    {
      hide OnlyLines;
      var line := FindLine(sourceID, targetID);
      if line == null {
        return true;
      }
      if amount <= line.amount - line.usedAmount {
        Use(line, amount);
        return true;
      }
      ok := line.AddUsedAmount(amount);
    }

    method SetUsed(l: TopologyTrustLine, a: nat)
      requires Valid() && l in repr && a <= l.amount
      modifies l`usedAmount, this`free
      ensures Valid() && l.usedAmount == a
      ensures free == old(free)[l.Line() := l.amount - a]
    {
      l.SetUsedAmount(a);
      free := free[l.Line() := l.amount - a];
    }

    method UseUp(l: TopologyTrustLine)
      requires Valid() && l in repr
      modifies l`usedAmount, this`free
      ensures Valid() && free == old(free)[l.Line() := 0]
    {
      SetUsed(l, l.amount);
    }

    ghost predicate AllUnused()
      reads this`msTrustLines, set u, i | u in msTrustLines && 0 <= i < |msTrustLines[u]| :: msTrustLines[u][i]
    {
      forall u, i | u in msTrustLines && 0 <= i < |msTrustLines[u]| :: msTrustLines[u][i].usedAmount == 0
    }

    method ResetAllUsedAmounts()
      requires Valid()
      modifies repr`usedAmount, this`free
      ensures Valid()
      ensures AllUnused()
    {
      hide OnlyLines, Once;
      var nodes := msTrustLines.Keys;
      while nodes != {}
        invariant Valid() && nodes <= msTrustLines.Keys
        invariant forall u, i | u in msTrustLines && u !in nodes && 0 <= i < |msTrustLines[u]| ::
                    msTrustLines[u][i].usedAmount == 0
      {
        var node :| node in nodes;
        var lines := msTrustLines[node];
        for k := 0 to |lines|
          invariant Valid()
          invariant forall i | 0 <= i < k :: lines[i].usedAmount == 0
          invariant forall u, i | u in msTrustLines && u !in nodes && 0 <= i < |msTrustLines[u]| ::
                      msTrustLines[u][i].usedAmount == 0
        {
          SetUsed(lines[k], 0);
        }
        nodes := nodes - {node};
      }
    }

    /** Uses up the lines from one gateway. */
    method MakeGatewayFullyUsed(gateway: Node, exceptedNode: Node)
      requires Valid()
      modifies repr`usedAmount, this`free
      ensures Valid()
      ensures var n := Net(Graph(msTrustLines), {}, exceptedNode);
        free == CloseFirst(n, old(free), mGateways, gateway, |Lines(n, gateway)|)
    {
      hide OnlyLines, Once;
      ghost var n, f := Net(Graph(msTrustLines), {}, exceptedNode), free;
      var lines := if gateway in msTrustLines then msTrustLines[gateway] else [];
      assert Targets(lines) == Lines(n, gateway);
      for i := 0 to |lines|
        invariant Valid() && free == CloseFirst(n, f, mGateways, gateway, i)
      {
        CloseNext(n, f, mGateways, gateway, i);
        assert lines[i].Line() == Edge(gateway, Lines(n, gateway)[i]);
        if lines[i].targetID !in mGateways && lines[i].targetID != exceptedNode {
          UseUp(lines[i]);
        }
      }
    }

    /** Uses up the lines from gateways to all nodes but gateways and `exceptedNode`. */
    method MakeFullyUsedFromGateways(exceptedNode: Node)
      requires Valid()
      modifies repr`usedAmount, this`free
      ensures Valid()
      ensures free == CloseGateways(Net(Graph(msTrustLines), {}, exceptedNode), old(free), mGateways)
      ensures free.Keys == old(free).Keys
      ensures forall e | e in free ::
        free[e] == if e.source in mGateways && e.target !in mGateways && e.target != exceptedNode then 0
                   else old(free)[e]
    {
      hide OnlyLines, CloseGateways;
      ghost var n, f := Net(Graph(msTrustLines), {}, exceptedNode), free;
      var gateways := mGateways;
      CloseNone(n, f, mGateways);
      while gateways != {}
        invariant Valid() && gateways <= mGateways && free == CloseSome(n, f, mGateways, mGateways - gateways)
      {
        var gateway :| gateway in gateways;
        CloseOneMore(n, f, mGateways, mGateways - gateways, gateway);
        MakeGatewayFullyUsed(gateway, exceptedNode);
        assert mGateways - (gateways - {gateway}) == mGateways - gateways + {gateway};
        gateways := gateways - {gateway};
      }
      assert mGateways - {} == mGateways;
      forall e | e in free ensures e.target in Lines(n, e.source) {
        FreeLineIsFiled(msTrustLines, repr, free.Keys, e);
      }
      ClosedExactly(n, f, mGateways);
    }
  }

  /** Compares every node of a path with all later ones. On a direct path, which has no nodes between its ends, it
      steps back from the end of nothing and has no result. */
  method IsPathValid(path: seq<Node>) returns (valid: Option<bool>)
    ensures valid == if path == [] then None else Some(Distinct(path))
  {
    if path == [] {
      return None;
    }
    for i := 0 to |path| - 1
      invariant forall j, k | 0 <= j < i && j < k < |path| :: path[j] != path[k]
    {
      for k := i + 1 to |path|
        invariant forall l | i < l < k :: path[i] != path[l]
      {
        if path[i] == path[k] {
          return Some(false);
        }
      }
    }
    return Some(true);
  }

  class PathsManager {
    const mTopology: TopologyTrustLinesManager
    /** The contractors of this node's own trust lines that are gateways. */
    const gateways: seq<Node>
    var mPathCollection: seq<seq<Node>>
    var mContractorID: Node
    var mPassedNodeIDs: seq<Node>
    var mCurrentPathLength: nat
    var mInaccessibleNodes: set<Node>

    constructor (topology: TopologyTrustLinesManager, gateways: seq<Node>)
      ensures mTopology == topology && this.gateways == gateways
      ensures mPathCollection == [] && mInaccessibleNodes == {}
    {
      mTopology := topology;
      this.gateways := gateways;
      mPathCollection, mPassedNodeIDs, mInaccessibleNodes := [], [], {};
    }

    /** What the search works on when it is to keep off `inaccessible`. */
    ghost function Search(inaccessible: set<Node>): Context
      reads this`mContractorID, this`mCurrentPathLength, mTopology`msTrustLines, mTopology`free
    {
      Context(Net(Graph(mTopology.msTrustLines), inaccessible, mContractorID), mTopology.free, mCurrentPathLength)
    }

    /** The collection throws on paths with more than five nodes. */
    method AddPath(path: seq<Node>)
      requires |path| <= 5
      modifies this`mPathCollection
      ensures mPathCollection == old(mPathCollection) + [path]
    {
      mPathCollection := mPathCollection + [path];
    }

    /** The search from `nodeID` on, with `currentFlow` let through so far. A build rules no node out, a rebuild
        rules out the inaccessible ones. */
    method CalculateOneNode(nodeID: Node, currentFlow: nat, level: nat, inaccessible: set<Node>) returns (flow: nat)
      requires mTopology.Valid()
      requires |mPassedNodeIDs| + 1 == level <= mCurrentPathLength <= MAX_PATH_LENGTH
      modifies this`mPassedNodeIDs, this`mPathCollection, mTopology`free, mTopology.repr`usedAmount
      ensures mTopology.Valid() && mPassedNodeIDs == old(mPassedNodeIDs)
      ensures Leaves(old(FromNode(Search(inaccessible), mPassedNodeIDs, nodeID, currentFlow, level)),
                     old(mTopology.free), old(mPassedNodeIDs), old(mPathCollection),
                     flow, mTopology.free, mPathCollection)
      decreases mCurrentPathLength - level, 2
    {
      hide OnlyLines, Once;
      ghost var c, passed := Search(inaccessible), mPassedNodeIDs;
      ghost var res := FromNode(c, passed, nodeID, currentFlow, level);
      if nodeID == mContractorID {
        LeavesAtContractor(c, passed, currentFlow, level, mPathCollection);
        if currentFlow > 0 {
          AddPath(mPassedNodeIDs);
        }
        return currentFlow;
      }
      if level == mCurrentPathLength {
        return 0;
      }
      var trustLines := mTopology.TrustLines(nodeID);
      ghost var targets := Targets(trustLines);
      assert targets == Lines(c.net, nodeID) == targets[0..];
      for i := 0 to |trustLines|
        invariant mTopology.Valid() && Search(inaccessible) == c
        invariant mPassedNodeIDs == passed && mPathCollection == old(mPathCollection)
        invariant FromLines(c, passed, nodeID, currentFlow, level, targets[i..]) == res
      {
        var trustLine := trustLines[i];
        LoopStep(c, passed, nodeID, currentFlow, level, i);
        var calcFlow := TryLine(nodeID, trustLine, currentFlow, level, inaccessible);
        if calcFlow > 0 {
          return calcFlow;
        }
      }
      return 0;
    }

    /** The step of the loop: a line is passed over, or followed as far as the flow that it lets through. */
    method TryLine(nodeID: Node, trustLine: TopologyTrustLine, currentFlow: nat, level: nat, inaccessible: set<Node>)
      returns (calcFlow: nat)
      requires mTopology.Valid() && trustLine in mTopology.repr && trustLine.sourceID == nodeID
      requires |mPassedNodeIDs| + 1 == level < mCurrentPathLength <= MAX_PATH_LENGTH && nodeID != mContractorID
      requires trustLine.targetID in Lines(Search(inaccessible).net, nodeID)
      modifies this`mPassedNodeIDs, this`mPathCollection, mTopology`free, mTopology.repr`usedAmount
      ensures mTopology.Valid() && mPassedNodeIDs == old(mPassedNodeIDs)
      ensures Leaves(old(FromLine(Search(inaccessible), mPassedNodeIDs, nodeID, currentFlow, level,
                                  trustLine.targetID)),
                     old(mTopology.free), old(mPassedNodeIDs), old(mPathCollection),
                     calcFlow, mTopology.free, mPathCollection)
      decreases mCurrentPathLength - level, 1
    {
      hide OnlyLines, FromNode;
      if trustLine.targetID == CURRENT_NODE || trustLine.targetID in inaccessible ||
         trustLine.targetID in mPassedNodeIDs
      {
        return 0;
      }
      var nextFlow := currentFlow;
      if trustLine.FreeAmount() < currentFlow {
        nextFlow := trustLine.FreeAmount();
      }
      assert nextFlow == Min(Cap(mTopology.free, Edge(nodeID, trustLine.targetID)), currentFlow);
      if nextFlow == 0 {
        return 0;
      }
      calcFlow := Follow(nodeID, trustLine, currentFlow, nextFlow, level, inaccessible);
    }

    /** Goes down along a line and, after a success, uses the line. */
    method Follow(nodeID: Node, trustLine: TopologyTrustLine, ghost currentFlow: nat, nextFlow: nat, level: nat,
                  inaccessible: set<Node>)
      returns (calcFlow: nat)
      requires mTopology.Valid() && trustLine in mTopology.repr && trustLine.sourceID == nodeID
      requires |mPassedNodeIDs| + 1 == level < mCurrentPathLength <= MAX_PATH_LENGTH && nodeID != mContractorID
      requires trustLine.targetID in Lines(Search(inaccessible).net, nodeID)
      requires !Skips(Search(inaccessible), mPassedNodeIDs, nodeID, currentFlow, trustLine.targetID)
      requires nextFlow == Min(mTopology.free[trustLine.Line()], currentFlow)
      modifies this`mPassedNodeIDs, this`mPathCollection, mTopology`free, mTopology.repr`usedAmount
      ensures mTopology.Valid() && mPassedNodeIDs == old(mPassedNodeIDs)
      ensures Leaves(old(FromLine(Search(inaccessible), mPassedNodeIDs, nodeID, currentFlow, level,
                                  trustLine.targetID)),
                     old(mTopology.free), old(mPassedNodeIDs), old(mPathCollection),
                     calcFlow, mTopology.free, mPathCollection)
      decreases mCurrentPathLength - level, 0
    {
      hide OnlyLines, Once;
      ghost var c, passed := Search(inaccessible), mPassedNodeIDs;
      mPassedNodeIDs := mPassedNodeIDs + [nodeID];
      assert Search(inaccessible) == c;
      calcFlow := CalculateOneNode(trustLine.targetID, nextFlow, level + 1, inaccessible);
      mPassedNodeIDs := mPassedNodeIDs[..|mPassedNodeIDs| - 1];
      assert mPassedNodeIDs == passed;
      LeavesUnwound(c, passed, nodeID, currentFlow, level, trustLine.targetID, old(mPathCollection),
                    calcFlow, mTopology.free, mPathCollection);
      ghost var e, f := trustLine.Line(), mTopology.free;
      if calcFlow > 0 {
        mTopology.Use(trustLine, calcFlow);
      }
      assert mTopology.free == Lowered(f, e, calcFlow);
    }

    /** One try of a level loop along a line of the current node. */
    method Send(trustLine: TopologyTrustLine, inaccessible: set<Node>) returns (flow: nat)
      requires mTopology.Valid() && trustLine in mTopology.repr && trustLine.sourceID == CURRENT_NODE
      requires 1 <= mCurrentPathLength <= MAX_PATH_LENGTH
      requires trustLine.targetID in Lines(Search(inaccessible).net, CURRENT_NODE)
      requires trustLine.targetID !in inaccessible
      modifies this`mPassedNodeIDs, this`mPathCollection, mTopology`free, mTopology.repr`usedAmount
      ensures mTopology.Valid()
      ensures Tried(old(Search(inaccessible)), trustLine.targetID, old(mPathCollection),
                    flow, mTopology.free, mPathCollection)
    {
      hide OnlyLines, Once;
      ghost var c, paths := Search(inaccessible), mPathCollection;
      var amount := trustLine.FreeAmount();
      mPassedNodeIDs := [];
      assert Search(inaccessible) == c;
      flow := CalculateOneNode(trustLine.targetID, amount, 1, inaccessible);
      TriedAfterSearch(c, trustLine.targetID, paths, flow, mTopology.free, mPathCollection);
      ghost var e, f := trustLine.Line(), mTopology.free;
      if flow > 0 {
        mTopology.Use(trustLine, flow);
      }
      assert mTopology.free == Lowered(f, e, flow);
    }

    method Try(trustLine: TopologyTrustLine, skipUsedUp: bool) returns (flow: nat)
      requires mTopology.Valid() && trustLine in mTopology.repr && trustLine.sourceID == CURRENT_NODE
      requires 1 <= mCurrentPathLength <= MAX_PATH_LENGTH
      requires trustLine.targetID in Lines(Search({}).net, CURRENT_NODE)
      modifies this`mPassedNodeIDs, this`mPathCollection, mTopology`free, mTopology.repr`usedAmount
      ensures mTopology.Valid()
      ensures Tried(old(Search({})), trustLine.targetID, old(mPathCollection), flow, mTopology.free, mPathCollection)
    {
      if skipUsedUp && trustLine.FreeAmount() == 0 {
        TriedUsedUp(Search({}), trustLine.targetID, mPathCollection);
        return 0;
      }
      flow := Send(trustLine, {});
    }

    /** The loop that stays on a line as long as the search along it succeeds. The first level loop passes over
        lines with nothing free; the second one tries them too. */
    method RetryLines(trustLines: seq<TopologyTrustLine>, skipUsedUp: bool)
      requires mTopology.Valid() && 1 <= mCurrentPathLength <= MAX_PATH_LENGTH
      requires forall l | l in trustLines :: l in mTopology.repr && l.sourceID == CURRENT_NODE
      requires Heads(Search({}).net, Targets(trustLines))
      modifies this`mPassedNodeIDs, this`mPathCollection, mTopology`free, mTopology.repr`usedAmount
      ensures mTopology.Valid()
      ensures Outcome(mTopology.free, mPathCollection)
           == old(Finish(mPathCollection, Retry(Search({}), Targets(trustLines))))
    {
      hide mTopology.Valid, IsRoute, Open, IsBottleneck;
      ghost var heads := Targets(trustLines);
      ghost var end := Finish(mPathCollection, Retry(Search({}), heads));
      ghost var net := Search({}).net;
      assert heads[0..] == heads;
      var i := 0;
      while i < |trustLines|
        invariant i <= |trustLines| && mTopology.Valid() && Search({}).net == net
        invariant Finish(mPathCollection, Retry(Search({}), heads[i..])) == end
        decreases |trustLines| - i, if i < |trustLines| then Cap(mTopology.free, trustLines[i].Line()) else 0
      {
        var trustLine := trustLines[i];
        assert trustLine.targetID == heads[i] && heads[i] in heads;
        ghost var c, paths := Search({}), mPathCollection;
        var flow := Try(trustLine, skipUsedUp);
        RetryStep(c, heads, i, paths, flow, mTopology.free, mPathCollection);
        assert Search({}) == c.(free := mTopology.free);
        if flow == 0 {
          i := i + 1;
        }
      }
      assert heads[|heads|..] == [];
    }

    method BuildPathsOnOneLevel()
      requires mTopology.Valid() && 1 <= mCurrentPathLength <= MAX_PATH_LENGTH
      modifies this`mPassedNodeIDs, this`mPathCollection, mTopology`free, mTopology.repr`usedAmount
      ensures mTopology.Valid()
      ensures Outcome(mTopology.free, mPathCollection)
           == old(Finish(mPathCollection, Retry(Search({}), Lines(Search({}).net, CURRENT_NODE))))
    {
      RetryLines(mTopology.TrustLines(CURRENT_NODE), true);
    }

    /** One search along the first line to `gateway`, which then leaves the list. */
    method TryGateway(trustLines: seq<TopologyTrustLine>, gateway: Node)
      returns (rest: seq<TopologyTrustLine>, ghost flow: nat)
      requires mTopology.Valid() && 1 <= mCurrentPathLength <= MAX_PATH_LENGTH
      requires forall l | l in trustLines :: l in mTopology.repr && l.sourceID == CURRENT_NODE
      requires Heads(Search({}).net, Targets(trustLines))
      modifies this`mPassedNodeIDs, this`mPathCollection, mTopology`free, mTopology.repr`usedAmount
      ensures mTopology.Valid()
      ensures Targets(rest) == RemoveFirst(Targets(trustLines), gateway) && forall l | l in rest :: l in trustLines
      ensures if gateway in Targets(trustLines) then
                Tried(old(Search({})), gateway, old(mPathCollection), flow, mTopology.free, mPathCollection)
              else
                mTopology.free == old(mTopology.free) && mPathCollection == old(mPathCollection)
    {
      hide mTopology.Valid, Tried, RemoveFirst;
      ghost var heads := Targets(trustLines);
      var i := FirstTo(trustLines, gateway);
      if i == |trustLines| {
        assert heads[..i] == heads;
        RemoveFirstKeeps(heads, gateway, CURRENT_NODE);
        return trustLines, 0;
      }
      rest := trustLines[..i] + trustLines[i + 1..];
      TargetsWithout(heads, rest, i);
      RemoveFirstAt(heads, gateway, i);
      assert heads[i] in heads;
      flow := Send(trustLines[i], {});
    }

    lemma TargetsWithout(heads: seq<Node>, trustLines: seq<TopologyTrustLine>, i: nat)
      requires i < |heads| && |trustLines| + 1 == |heads|
      requires forall k | 0 <= k < |trustLines| :: trustLines[k].targetID == heads[if k < i then k else k + 1]
      ensures Targets(trustLines) == heads[..i] + heads[i + 1..]
    {}

    /** On the second level the gateways come first, one search each. */
    method BuildPathsOnSecondLevel()
      requires mTopology.Valid() && 1 <= mCurrentPathLength <= MAX_PATH_LENGTH
      modifies this`mPassedNodeIDs, this`mPathCollection, mTopology`free, mTopology.repr`usedAmount
      ensures mTopology.Valid()
      ensures Outcome(mTopology.free, mPathCollection)
           == old(Finish(mPathCollection,
                         GatewaysFirst(Search({}), Lines(Search({}).net, CURRENT_NODE), gateways)))
    {
      hide mTopology.Valid, IsRoute, Open, IsBottleneck;
      var trustLines := mTopology.TrustLines(CURRENT_NODE);
      ghost var end := Finish(mPathCollection, GatewaysFirst(Search({}), Targets(trustLines), gateways));
      ghost var net := Search({}).net;
      assert gateways[0..] == gateways;
      for k := 0 to |gateways|
        invariant mTopology.Valid() && Search({}).net == net && Heads(net, Targets(trustLines))
        invariant forall l | l in trustLines :: l in mTopology.repr && l.sourceID == CURRENT_NODE
        invariant Finish(mPathCollection, GatewaysFirst(Search({}), Targets(trustLines), gateways[k..])) == end
      {
        ghost var c, heads, paths := Search({}), Targets(trustLines), mPathCollection;
        assert gateways[k..][0] == gateways[k] && gateways[k..][1..] == gateways[k + 1..];
        ghost var flow;
        trustLines, flow := TryGateway(trustLines, gateways[k]);
        GatewayStep(c, heads, gateways[k..], paths, flow, mTopology.free, mPathCollection);
        assert Search({}) == c.(free := mTopology.free);
      }
      assert gateways[|gateways|..] == [];
      RetryLines(trustLines, false);
    }

    method SendIfAccessible(trustLine: TopologyTrustLine) returns (flow: nat)
      requires mTopology.Valid() && trustLine in mTopology.repr && trustLine.sourceID == CURRENT_NODE
      requires 1 <= mCurrentPathLength <= MAX_PATH_LENGTH
      requires trustLine.targetID in Lines(Search(mInaccessibleNodes).net, CURRENT_NODE)
      modifies this`mPassedNodeIDs, this`mPathCollection, mTopology`free, mTopology.repr`usedAmount
      ensures mTopology.Valid()
      ensures Tried(old(Search(mInaccessibleNodes)), trustLine.targetID, old(mPathCollection),
                    flow, mTopology.free, mPathCollection)
    {
      hide mTopology.Valid, IsRoute, Open, IsBottleneck;
      mPassedNodeIDs := [];
      assert Search(mInaccessibleNodes) == old(Search(mInaccessibleNodes));
      if trustLine.targetID in mInaccessibleNodes {
        TriedUsedUp(Search(mInaccessibleNodes), trustLine.targetID, mPathCollection);
        return 0;
      }
      flow := Send(trustLine, mInaccessibleNodes);
    }

    /** One pass of the rebuild over the lines of the current node, up to the first success. */
    method SendFirst(trustLines: seq<TopologyTrustLine>) returns (currentFlow: nat)
      requires mTopology.Valid() && 1 <= mCurrentPathLength <= MAX_PATH_LENGTH
      requires forall l | l in trustLines :: l in mTopology.repr && l.sourceID == CURRENT_NODE
      requires Heads(Search(mInaccessibleNodes).net, Targets(trustLines))
      modifies this`mPassedNodeIDs, this`mPathCollection, mTopology`free, mTopology.repr`usedAmount
      ensures mTopology.Valid()
      ensures var c := old(Search(mInaccessibleNodes));
        var first := FirstSuccess(c, Targets(trustLines));
        if first.NotFound? then
          currentFlow == 0 && mTopology.free == c.free && mPathCollection == old(mPathCollection)
        else
          Tried(c, first.route[1], old(mPathCollection), currentFlow, mTopology.free, mPathCollection)
    {
      hide mTopology.Valid, IsRoute, Open, IsBottleneck;
      ghost var c, paths, heads := Search(mInaccessibleNodes), mPathCollection, Targets(trustLines);
      assert heads[0..] == heads;
      for i := 0 to |trustLines|
        invariant mTopology.Valid() && Search(mInaccessibleNodes) == c && mPathCollection == paths
        invariant FirstSuccess(c, heads[i..]) == FirstSuccess(c, heads)
      {
        var trustLine := trustLines[i];
        assert heads[i] in heads;
        FirstSuccessStep(c, heads, i);
        var flow := SendIfAccessible(trustLine);
        if flow > 0 {
          AttemptSound(c, heads[i]);
          return flow;
        }
      }
      return 0;
    }

    /** The rebuild's level loop, which goes back to the first line after every success. It throws when the sum
        of what it sent exceeds the largest amount. */
    method ReBuildPathsOnOneLevel() returns (result: Option<nat>)
      requires mTopology.Valid() && 1 <= mCurrentPathLength <= MAX_PATH_LENGTH
      modifies this`mPassedNodeIDs, this`mPathCollection, mTopology`free, mTopology.repr`usedAmount
      ensures mTopology.Valid()
      ensures var run := old(RebuildLevel(Search(mInaccessibleNodes)));
        && (result.Some? <==> Total(run.flows) <= MAX_AMOUNT)
        && (result.Some? ==> result.value == Total(run.flows))
        && (result.Some? ==> Outcome(mTopology.free, mPathCollection) == Finish(old(mPathCollection), run))
    {
      var trustLines := mTopology.TrustLines(CURRENT_NODE);
      ghost var run := RebuildLevel(Search(mInaccessibleNodes));
      ghost var net, heads := Search(mInaccessibleNodes).net, Targets(trustLines);
      var sum := 0;
      while true
        invariant mTopology.Valid() && Search(mInaccessibleNodes).net == net && sum <= MAX_AMOUNT
        invariant Finish(mPathCollection, Restart(Search(mInaccessibleNodes), heads))
               == Finish(old(mPathCollection), run)
        invariant sum + Total(Restart(Search(mInaccessibleNodes), heads).flows) == Total(run.flows)
        decreases HeadSum(mTopology.free, heads)
      {
        ghost var c, paths := Search(mInaccessibleNodes), mPathCollection;
        ghost var first := FirstSuccess(c, heads);
        var currentFlow := SendFirst(trustLines);
        assert Search(mInaccessibleNodes) == c.(free := mTopology.free);
        if first.Found? {
          RestartStep(c, heads, first.route[1], paths, currentFlow, mTopology.free, mPathCollection);
        }
        if sum + currentFlow > MAX_AMOUNT {
          return None;
        }
        sum := sum + currentFlow;
        if currentFlow == 0 {
          break;
        }
      }
      assert mPathCollection + [] == mPathCollection;
      return Some(sum);
    }

    /** One level of a build. */
    method BuildLevelUpTo(limit: nat)
      requires mTopology.Valid() && 1 <= limit <= MAX_PATH_LENGTH
      modifies this`mCurrentPathLength, this`mPassedNodeIDs, this`mPathCollection
      modifies mTopology`free, mTopology.repr`usedAmount
      ensures mTopology.Valid()
      ensures var n := Net(Graph(mTopology.msTrustLines), {}, mContractorID);
        old(Finish(mPathCollection, Build(n, mTopology.free, limit, gateways)))
        == Finish(mPathCollection, Build(n, mTopology.free, limit + 1, gateways))
    {
      mCurrentPathLength := limit;
      ghost var c, paths := Search({}), mPathCollection;
      if limit == 2 {
        BuildPathsOnSecondLevel();
      } else {
        BuildPathsOnOneLevel();
      }
      BuildStep(c.net, c.free, limit, gateways, paths, Outcome(mTopology.free, mPathCollection));
    }

    /** The levels from `first` on. */
    method BuildLevelsFrom(first: nat)
      requires mTopology.Valid() && 1 <= first <= MAX_PATH_LENGTH + 1
      modifies this`mCurrentPathLength, this`mPassedNodeIDs, this`mPathCollection
      modifies mTopology`free, mTopology.repr`usedAmount
      ensures mTopology.Valid()
      ensures Outcome(mTopology.free, mPathCollection)
           == old(Finish(mPathCollection, Build(Net(Graph(mTopology.msTrustLines), {}, mContractorID),
                                                mTopology.free, first, gateways)))
    {
      ghost var n := Net(Graph(mTopology.msTrustLines), {}, mContractorID);
      ghost var end := Finish(mPathCollection, Build(n, mTopology.free, first, gateways));
      hide mTopology.Valid, Finish, Build;
      for length := first to MAX_PATH_LENGTH + 1
        invariant mTopology.Valid()
        invariant Finish(mPathCollection, Build(n, mTopology.free, length, gateways)) == end
      {
        BuildLevelUpTo(length);
        assert n == Net(Graph(mTopology.msTrustLines), {}, mContractorID);
      }
      BuildDone(n, mTopology.free, gateways, mPathCollection);
    }

    /** The levels of a build from `first` on, and the reset. */
    method BuildAndReset(first: nat)
      requires mTopology.Valid() && mPathCollection == [] && 1 <= first <= MAX_PATH_LENGTH + 1
      modifies this`mCurrentPathLength, this`mPassedNodeIDs, this`mPathCollection
      modifies mTopology`free, mTopology.repr`usedAmount
      ensures mTopology.Valid() && mTopology.AllUnused()
      ensures var n := Net(Graph(mTopology.msTrustLines), {}, mContractorID);
        mPathCollection == PathsOf(Build(n, old(mTopology.free), first, gateways).flows)
    {
      ghost var n := Net(Graph(mTopology.msTrustLines), {}, mContractorID);
      var trustLines := mTopology.TrustLines(CURRENT_NODE);
      if |trustLines| == 0 {
        NothingToBuild(n, mTopology.free, first, gateways);
        mTopology.ResetAllUsedAmounts();
        return;
      }
      ghost var flows := Build(n, mTopology.free, first, gateways).flows;
      BuildLevelsFrom(first);
      assert mPathCollection == [] + PathsOf(flows) == PathsOf(flows);
      mTopology.ResetAllUsedAmounts();
    }

    /** Finds and records paths to the contractor. Afterwards no line counts as used. */
    method BuildPaths(contractorID: Node)
      requires mTopology.Valid()
      modifies this`mContractorID, this`mCurrentPathLength, this`mPassedNodeIDs, this`mPathCollection
      modifies mTopology`free, mTopology.repr`usedAmount
      ensures mTopology.Valid() && mTopology.AllUnused()
      ensures var n := Net(Graph(mTopology.msTrustLines), {}, contractorID);
        var f := CloseGateways(n, old(mTopology.free), mTopology.mGateways);
        mPathCollection == PathsOf(Build(n, f, 1, gateways).flows)
      ensures PathsInGatewayOrder(mPathCollection, gateways)
    {
      hide CloseGateways, Build, PathsOf, PathsInGatewayOrder;
      mTopology.MakeFullyUsedFromGateways(contractorID);
      mContractorID := contractorID;
      mPathCollection := [];
      GatewayPathsComeFirst(Net(Graph(mTopology.msTrustLines), {}, contractorID), mTopology.free, gateways);
      BuildAndReset(1);
    }

    /** One level of a rebuild; false stands for the exception on too large a sum. */
    method RebuildLevelUpTo(limit: nat) returns (ok: bool)
      requires mTopology.Valid() && 1 <= limit <= MAX_PATH_LENGTH
      modifies this`mCurrentPathLength, this`mPassedNodeIDs, this`mPathCollection
      modifies mTopology`free, mTopology.repr`usedAmount
      ensures mTopology.Valid()
      ensures var n := Net(Graph(mTopology.msTrustLines), mInaccessibleNodes, mContractorID);
        old(RebuildEnd(n, mTopology.free, limit, mPathCollection, MAX_AMOUNT))
        == if ok then RebuildEnd(n, mTopology.free, limit + 1, mPathCollection, MAX_AMOUNT) else None
    {
      mCurrentPathLength := limit;
      ghost var c, paths := Search(mInaccessibleNodes), mPathCollection;
      var result := ReBuildPathsOnOneLevel();
      if result.Some? {
        RebuildStep(c.net, c.free, limit, paths, Outcome(mTopology.free, mPathCollection), MAX_AMOUNT);
      }
      return result.Some?;
    }

    method RebuildLevelsFrom(first: nat) returns (ok: bool)
      requires mTopology.Valid() && 1 <= first <= MAX_PATH_LENGTH + 1
      modifies this`mCurrentPathLength, this`mPassedNodeIDs, this`mPathCollection
      modifies mTopology`free, mTopology.repr`usedAmount
      ensures mTopology.Valid()
      ensures var n := Net(Graph(mTopology.msTrustLines), mInaccessibleNodes, mContractorID);
        old(RebuildEnd(n, mTopology.free, first, mPathCollection, MAX_AMOUNT))
        == if ok then Some(Outcome(mTopology.free, mPathCollection)) else None
    {
      ghost var n := Net(Graph(mTopology.msTrustLines), mInaccessibleNodes, mContractorID);
      ghost var end := RebuildEnd(n, mTopology.free, first, mPathCollection, MAX_AMOUNT);
      for length := first to MAX_PATH_LENGTH + 1
        invariant mTopology.Valid()
        invariant RebuildEnd(n, mTopology.free, length, mPathCollection, MAX_AMOUNT) == end
      {
        ghost var f, paths := mTopology.free, mPathCollection;
        ok := RebuildLevelUpTo(length);
        assert n == Net(Graph(mTopology.msTrustLines), mInaccessibleNodes, mContractorID);
        assert RebuildEnd(n, f, length, paths, MAX_AMOUNT)
            == if ok then RebuildEnd(n, mTopology.free, length + 1, mPathCollection, MAX_AMOUNT) else None;
        if !ok {
          return;
        }
      }
      RebuildDone(n, mTopology.free, mPathCollection, MAX_AMOUNT);
      return true;
    }

    /** The levels of a rebuild from `first` on, and the reset that an exception skips. */
    method RebuildAndReset(first: nat) returns (ok: bool)
      requires mTopology.Valid() && mPathCollection == [] && 1 <= first <= MAX_PATH_LENGTH + 1
      modifies this`mCurrentPathLength, this`mPassedNodeIDs, this`mPathCollection
      modifies mTopology`free, mTopology.repr`usedAmount
      ensures mTopology.Valid() && (ok ==> mTopology.AllUnused())
      ensures var n := Net(Graph(mTopology.msTrustLines), mInaccessibleNodes, mContractorID);
        && (ok <==> RebuildFits(n, old(mTopology.free), first, MAX_AMOUNT))
        && (ok ==> mPathCollection == PathsOf(Rebuild(n, old(mTopology.free), first).flows))
    {
      ghost var n := Net(Graph(mTopology.msTrustLines), mInaccessibleNodes, mContractorID);
      var trustLines := mTopology.TrustLines(CURRENT_NODE);
      if |trustLines| == 0 {
        NothingToRebuild(n, mTopology.free, first, MAX_AMOUNT);
        mTopology.ResetAllUsedAmounts();
        return true;
      }
      ghost var flows := Rebuild(n, mTopology.free, first).flows;
      ok := RebuildLevelsFrom(first);
      if ok {
        assert mPathCollection == [] + PathsOf(flows) == PathsOf(flows);
        mTopology.ResetAllUsedAmounts();
      }
    }

    /** Finds and records paths that keep off all nodes ever declared inaccessible, starting with two lines.
        Throws out of a level whose amounts add up to too much. */
    method ReBuildPaths(contractorID: Node, inaccessibleNodes: set<Node>) returns (ok: bool)
      requires mTopology.Valid()
      modifies this`mContractorID, this`mCurrentPathLength, this`mPassedNodeIDs, this`mPathCollection
      modifies this`mInaccessibleNodes, mTopology`free, mTopology.repr`usedAmount
      ensures mTopology.Valid() && (ok ==> mTopology.AllUnused())
      ensures mInaccessibleNodes == old(mInaccessibleNodes) + inaccessibleNodes
      ensures var n := Net(Graph(mTopology.msTrustLines), mInaccessibleNodes, contractorID);
        var f := CloseGateways(n, old(mTopology.free), mTopology.mGateways);
        && (ok <==> RebuildFits(n, f, 2, MAX_AMOUNT))
        && (ok ==> mPathCollection == PathsOf(Rebuild(n, f, 2).flows))
    {
      hide CloseGateways, Rebuild, RebuildFits, PathsOf;
      mContractorID := contractorID;
      mTopology.MakeFullyUsedFromGateways(contractorID);
      mInaccessibleNodes := mInaccessibleNodes + inaccessibleNodes;
      mPathCollection := [];
      ghost var n := Net(Graph(mTopology.msTrustLines), mInaccessibleNodes, contractorID);
      ClosedAlike(n, Net(n.lines, {}, contractorID), old(mTopology.free), mTopology.mGateways);
      ok := RebuildAndReset(2);
    }
  }
}
