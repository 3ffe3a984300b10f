/** The queues of cycles found between debts, and the rule that one cycle is closed at a time. */
module Cycles {

  type Node = nat

  /** A cycle by its nodes besides the current one. */
  type Path = seq<Node>

  /** The four classes of cycles: with three, four, five and six nodes. */
  const CLASSES: nat := 4

  /** What became of a cycle that was accepted. */
  datatype Fate = Queued | Emitted | Removed

  datatype Entry = Entry(path: Path, fate: Fate)

  /** What the outside sees: a cycle handed over for closing, or the report that one has been dealt with. */
  datatype Event = Emit(path: Path) | Finished

  /** Queues by class, the class to look at next, whether a cycle is being closed, the closed trust lines and
      offline nodes by the time they were reported, and the history: the cycles of every class in the order of
      acceptance, and all events. */
  datatype State = State(queues: seq<seq<Path>>, current: nat, inProcess: bool,
                         closed: map<int, (Node, Node)>, offline: map<int, Node>,
                         logs: seq<seq<Entry>>, events: seq<Event>)

  // ----- Paths

  predicate ContainsTrustLine(p: Path, source: Node, destination: Node) {
    exists i: nat | i + 1 < |p| :: p[i] == source && Then(p, i) == destination
  }

  function Then(p: Path, i: nat): Node
    requires i + 1 < |p|
  {
    p[i + 1]
  }

  /** A path has a trust line if its nodes stand in it one right after the other, the source first. */
  lemma ContainsExactly(p: Path, source: Node, destination: Node)
    ensures ContainsTrustLine(p, source, destination) <==>
      exists before: Path, after: Path :: p == before + [source, destination] + after
    ensures ContainsTrustLine(p, source, destination) <==>
      exists i | 0 <= i < |p| - 1 :: p[i] == source && p[i + 1] == destination
  {
    if ContainsTrustLine(p, source, destination) {
      var i: nat :| i + 1 < |p| && p[i] == source && Then(p, i) == destination;
      assert p == p[..i] + [source, destination] + p[i + 2..];
      assert p[i] == source && p[i + 1] == destination;
    }
    if before: Path, after: Path :| p == before + [source, destination] + after {
      assert p[|before|] == source && Then(p, |before|) == destination;
    }
    if i :| 0 <= i < |p| - 1 && p[i] == source && p[i + 1] == destination {
      assert Then(p, i) == destination;
    }
  }

  // ----- Logs

  function QueueOf(log: seq<Entry>): seq<Path> {
    if log == [] then [] else (if log[0].fate.Queued? then [log[0].path] else []) + QueueOf(log[1..])
  }

  function EmittedOf(log: seq<Entry>): seq<Path> {
    if log == [] then [] else (if log[0].fate.Emitted? then [log[0].path] else []) + EmittedOf(log[1..])
  }

  function PathsOf(log: seq<Entry>): seq<Path> {
    if log == [] then [] else [log[0].path] + PathsOf(log[1..])
  }

  /** First in, first out: nothing overtakes a cycle that is still queued. */
  predicate Fifo(log: seq<Entry>) {
    forall i, j | 0 <= i < j < |log| :: log[j].fate.Emitted? ==> !log[i].fate.Queued?
  }

  function Accept(log: seq<Entry>, p: Path): seq<Entry> {
    log + [Entry(p, Queued)]
  }

  /** The cycle at the front of the queue is handed over. */
  function EmitFirst(log: seq<Entry>): seq<Entry> {
    if log == [] then []
    else if log[0].fate.Queued? then [log[0].(fate := Emitted)] + log[1..]
    else [log[0]] + EmitFirst(log[1..])
  }

  /** All queued cycles that `drop` applies to leave the queue. */
  function Drop(log: seq<Entry>, drop: Path -> bool): seq<Entry> {
    if log == [] then []
    else [if log[0].fate.Queued? && drop(log[0].path) then log[0].(fate := Removed) else log[0]] + Drop(log[1..], drop)
  }

  function Without(queue: seq<Path>, drop: Path -> bool): seq<Path> {
    if queue == [] then [] else (if drop(queue[0]) then [] else [queue[0]]) + Without(queue[1..], drop)
  }

  lemma {:induction false} AcceptQueues(log: seq<Entry>, p: Path)
    requires Fifo(log)
    ensures QueueOf(Accept(log, p)) == QueueOf(log) + [p] && EmittedOf(Accept(log, p)) == EmittedOf(log)
    ensures PathsOf(Accept(log, p)) == PathsOf(log) + [p] && Fifo(Accept(log, p))
  {
    if log != [] {
      assert Accept(log, p)[1..] == Accept(log[1..], p);
      AcceptQueues(log[1..], p);
    }
  }

  lemma {:induction false} EmitFirstQueues(log: seq<Entry>)
    requires Fifo(log) && QueueOf(log) != []
    ensures QueueOf(EmitFirst(log)) == QueueOf(log)[1..]
    ensures EmittedOf(EmitFirst(log)) == EmittedOf(log) + [QueueOf(log)[0]]
    ensures PathsOf(EmitFirst(log)) == PathsOf(log) && Fifo(EmitFirst(log))
    ensures |EmitFirst(log)| == |log|
    ensures forall i | 0 <= i < |log| :: EmitFirst(log)[i].fate.Queued? ==> log[i].fate.Queued?
  {
    var after := EmitFirst(log);
    if log[0].fate.Queued? {
      assert after[1..] == log[1..];
      NothingEmitted(log[1..]);
      assert forall j | 1 <= j < |log| :: !log[j].fate.Emitted?;
    } else {
      EmitFirstQueues(log[1..]);
      assert after[1..] == EmitFirst(log[1..]);
      forall i, j | 0 <= i < j < |after| && after[j].fate.Emitted? ensures !after[i].fate.Queued? {
        if i > 0 {
          assert EmitFirst(log[1..])[j - 1].fate.Emitted?;
        }
      }
    }
  }

  lemma {:induction false} NothingEmitted(log: seq<Entry>)
    requires forall j | 0 <= j < |log| :: !log[j].fate.Emitted?
    ensures EmittedOf(log) == []
  {
    if log != [] {
      NothingEmitted(log[1..]);
    }
  }

  lemma {:induction false} DropPointwise(log: seq<Entry>, drop: Path -> bool)
    ensures |Drop(log, drop)| == |log|
    ensures forall i | 0 <= i < |log| :: Drop(log, drop)[i].path == log[i].path
    ensures forall i | 0 <= i < |log| :: Drop(log, drop)[i].fate.Emitted? == log[i].fate.Emitted?
    ensures forall i | 0 <= i < |log| :: Drop(log, drop)[i].fate.Queued? ==> log[i].fate.Queued?
  {
    if log != [] {
      DropPointwise(log[1..], drop);
    }
  }

  lemma {:induction false} DropKeepsRest(log: seq<Entry>, drop: Path -> bool)
    ensures EmittedOf(Drop(log, drop)) == EmittedOf(log) && PathsOf(Drop(log, drop)) == PathsOf(log)
  {
    if log != [] {
      DropKeepsRest(log[1..], drop);
      assert Drop(log, drop)[1..] == Drop(log[1..], drop);
    }
  }

  lemma {:induction false} DropQueues(log: seq<Entry>, drop: Path -> bool)
    ensures QueueOf(Drop(log, drop)) == Without(QueueOf(log), drop)
  {
    if log != [] {
      DropQueues(log[1..], drop);
      assert Drop(log, drop)[1..] == Drop(log[1..], drop);
      if log[0].fate.Queued? {
        assert QueueOf(log)[1..] == QueueOf(log[1..]);
      } else {
        assert QueueOf(log) == QueueOf(log[1..]);
      }
    }
  }

  /** The cycles of one class in a list of events. */
  function EmitsOf(events: seq<Event>, c: nat): seq<Path> {
    if events == [] then []
    else (if events[0].Emit? && |events[0].path| == c + 2 then [events[0].path] else []) + EmitsOf(events[1..], c)
  }

  lemma {:induction false} EmitsConcat(a: seq<Event>, b: seq<Event>, c: nat)
    ensures EmitsOf(a + b, c) == EmitsOf(a, c) + EmitsOf(b, c)
  {
    if a == [] {
      assert a + b == b;
    } else {
      assert (a + b)[1..] == a[1..] + b;
      EmitsConcat(a[1..], b, c);
    }
  }

  // ----- Events

  /** Whether a cycle has been handed over since the last report. */
  predicate Open(events: seq<Event>) {
    events != [] && events[|events| - 1].Emit?
  }

  /** Between any two cycles handed over there is a report that the first one has been dealt with. */
  predicate OneAtATime(events: seq<Event>) {
    forall i, j | 0 <= i < j < |events| && events[i].Emit? && events[j].Emit? ::
      exists k | i < k < j :: events[k].Finished?
  }

  // ----- The invariant

  /** Every class: its queue and its emitted cycles are what its log says, first in first out, and the log holds
      cycles of the right length. */
  predicate ClassKept(s: State, c: nat)
    requires c < |s.queues| && c < |s.logs|
  {
    && s.queues[c] == QueueOf(s.logs[c])
    && EmittedOf(s.logs[c]) == EmitsOf(s.events, c)
    && Fifo(s.logs[c])
    && (forall k | 0 <= k < |s.logs[c]| :: |s.logs[c][k].path| == c + 2)
  }

  predicate Shaped(s: State) {
    |s.queues| == CLASSES && |s.logs| == CLASSES && s.current < CLASSES
  }

  predicate Invariant(s: State) {
    && Shaped(s)
    && (forall c: nat | c < CLASSES :: ClassKept(s, c))
    && OneAtATime(s.events)
    && s.inProcess == Open(s.events)
  }

  // ----- Steps

  /** What happens to the manager, each time with whether cycles may be run at all. */
  datatype Op =
    | AddCycle(path: Path, enabled: bool)
    | CloseOneCycle(finished: bool, enabled: bool)
    | AddClosedTrustLine(now: int, source: Node, destination: Node)
    | AddOfflineNode(now: int, node: Node)

  predicate IsEarliest<V>(m: map<int, V>, t: int) {
    t in m && forall u | u in m :: t <= u
  }

  lemma Some<T>(s: set<T>) returns (x: T)
    requires s != {}
    ensures x in s
  {
    x :| x in s;
  }

  lemma {:induction false} LeastExists(s: set<int>)
    requires s != {}
    ensures exists t :: t in s && forall u | u in s :: t <= u
    decreases s
  {
    var u := Some(s);
    if s != {u} {
      LeastExists(s - {u});
      var t :| t in s - {u} && forall v | v in s - {u} :: t <= v;
      var least := if t < u then t else u;
      assert least in s;
      forall v | v in s ensures least <= v {
        assert v == u || v in s - {u};
      }
    }
  }

  lemma EarliestExists<V>(m: map<int, V>)
    requires m != map[]
    ensures exists t :: IsEarliest(m, t)
  {
    assert m.Keys == {} ==> m == map[];
    LeastExists(m.Keys);
    var t :| t in m.Keys && forall u | u in m.Keys :: t <= u;
    assert IsEarliest(m, t);
  }

  ghost function Earliest<V>(m: map<int, V>): (t: int)
    requires m != map[]
    ensures IsEarliest(m, t)
  {
    EarliestExists(m);
    var t :| IsEarliest(m, t);
    t
  }

  lemma EarliestIsUnique<V>(m: map<int, V>, t: int)
    requires IsEarliest(m, t)
    ensures m != map[] && t == Earliest(m)
  {
    assert t in m;
    var e := Earliest(m);
  }

  function HasLine(source: Node, destination: Node): Path -> bool {
    p => ContainsTrustLine(p, source, destination)
  }

  function HasNode(node: Node): Path -> bool {
    p => node in p
  }

  /** Every class loses the cycles that `drop` applies to. */
  function DropAll(s: State, drop: Path -> bool): (after: State)
    requires Shaped(s)
    ensures Shaped(after)
  {
    s.(queues := seq(CLASSES, c requires 0 <= c < CLASSES => Without(s.queues[c], drop)),
       logs := seq(CLASSES, c requires 0 <= c < CLASSES => Drop(s.logs[c], drop)))
  }

  /** The earliest closed trust line is dealt with, if there is one. */
  ghost function ClearLine(s: State): (after: State)
    requires Shaped(s)
    ensures Shaped(after)
  {
    if s.closed == map[] then s
    else
      var t := Earliest(s.closed);
      DropAll(s, HasLine(s.closed[t].0, s.closed[t].1)).(closed := s.closed - {t})
  }

  /** The earliest offline node is dealt with, if there is one. */
  ghost function ClearNode(s: State): (after: State)
    requires Shaped(s)
    ensures Shaped(after)
  {
    if s.offline == map[] then s
    else
      var t := Earliest(s.offline);
      DropAll(s, HasNode(s.offline[t])).(offline := s.offline - {t})
  }

  /** At most `left` steps from the class to look at on to one that is not empty; its first cycle is handed over. */
  function Scan(s: State, left: nat): (after: State)
    requires Shaped(s)
    ensures Shaped(after)
    decreases left
  {
    if left == 0 then
      s.(inProcess := false)
    else if s.queues[s.current] != [] then
      EmitFrom(s, s.current)
    else
      Scan(s.(current := (s.current + 1) % CLASSES), left - 1)
  }

  ghost function Step(s: State, op: Op): (after: State)
    requires Shaped(s)
    ensures Shaped(after)
  {
    match op
    case AddCycle(path, enabled) =>
      if !enabled || !(2 <= |path| < CLASSES + 2) then s else Enqueued(s, path)
    case CloseOneCycle(finished, enabled) =>
      if !enabled then s
      else
        var reported := if finished then s.(inProcess := false, events := s.events + [Finished]) else s;
        var cleared := ClearNode(ClearLine(reported));
        if cleared.inProcess then cleared else Scan(cleared, CLASSES)
    case AddClosedTrustLine(now, source, destination) =>
      if now in s.closed then s else s.(closed := s.closed[now := (source, destination)])
    case AddOfflineNode(now, node) =>
      if now in s.offline then s else s.(offline := s.offline[now := node])
  }

  // ----- Every step keeps the invariant

  lemma DropAllKeeps(s: State, drop: Path -> bool)
    requires Invariant(s)
    ensures Invariant(DropAll(s, drop))
  {
    var after := DropAll(s, drop);
    forall c: nat | c < CLASSES ensures ClassKept(after, c) {
      assert ClassKept(s, c);
      DropPointwise(s.logs[c], drop);
      DropKeepsRest(s.logs[c], drop);
      DropQueues(s.logs[c], drop);
    }
  }

  lemma ReportKeeps(s: State)
    requires Invariant(s)
    ensures Invariant(s.(inProcess := false, events := s.events + [Finished]))
  {
    var after := s.(inProcess := false, events := s.events + [Finished]);
    forall c: nat | c < CLASSES ensures ClassKept(after, c) {
      assert ClassKept(s, c);
      EmitsConcat(s.events, [Finished], c);
    }
    OneAtATimeReported(s.events);
  }

  lemma OneAtATimeReported(events: seq<Event>)
    requires OneAtATime(events)
    ensures OneAtATime(events + [Finished])
  {
    var after := events + [Finished];
    forall i, j | 0 <= i < j < |after| && after[i].Emit? && after[j].Emit?
      ensures exists k | i < k < j :: after[k].Finished?
    {
      var k :| i < k < j && events[k].Finished?;
      assert after[k].Finished?;
    }
  }

  lemma OneAtATimeEmitted(events: seq<Event>, p: Path)
    requires OneAtATime(events) && !Open(events)
    ensures OneAtATime(events + [Emit(p)])
  {
    var after := events + [Emit(p)];
    forall i, j | 0 <= i < j < |after| && after[i].Emit? && after[j].Emit?
      ensures exists k | i < k < j :: after[k].Finished?
    {
      if j < |events| {
        var k :| i < k < j && events[k].Finished?;
        assert after[k].Finished?;
      } else {
        assert after[|events| - 1].Finished?;
      }
    }
  }

  function EmitFrom(s: State, c: nat): State
    requires Shaped(s) && c < CLASSES && s.queues[c] != []
  {
    s.(queues := s.queues[c := s.queues[c][1..]], logs := s.logs[c := EmitFirst(s.logs[c])],
       events := s.events + [Emit(s.queues[c][0])], inProcess := true)
  }

  lemma EmitKeepsClass(s: State, c: nat, d: nat)
    requires Invariant(s) && c < CLASSES && s.queues[c] != [] && d < CLASSES
    ensures ClassKept(EmitFrom(s, c), d)
  {
    var p := s.queues[c][0];
    assert ClassKept(s, c) && ClassKept(s, d);
    EmitsConcat(s.events, [Emit(p)], d);
    QueuedIsLogged(s.logs[c], c + 2);
    assert [Emit(p)][1..] == [];
    assert EmitsOf([Emit(p)], d) == if d == c then [p] else [];
    if d == c {
      EmitFirstQueues(s.logs[c]);
      SamePaths(s.logs[c], EmitFirst(s.logs[c]));
    }
  }

  lemma EmitKeeps(s: State, c: nat)
    requires Invariant(s) && c < CLASSES && s.queues[c] != [] && !s.inProcess
    ensures Invariant(EmitFrom(s, c))
  {
    forall d: nat | d < CLASSES ensures ClassKept(EmitFrom(s, c), d) {
      EmitKeepsClass(s, c, d);
    }
    OneAtATimeEmitted(s.events, s.queues[c][0]);
  }

  lemma {:induction false} SamePaths(a: seq<Entry>, b: seq<Entry>)
    requires PathsOf(a) == PathsOf(b) && |a| == |b|
    ensures forall k | 0 <= k < |a| :: a[k].path == b[k].path
  {
    if a != [] {
      assert PathsOf(a)[0] == PathsOf(b)[0];
      assert PathsOf(a[1..]) == PathsOf(a)[1..] && PathsOf(b[1..]) == PathsOf(b)[1..];
      SamePaths(a[1..], b[1..]);
      forall k | 0 <= k < |a| ensures a[k].path == b[k].path {
        assert k > 0 ==> a[k] == a[1..][k - 1] && b[k] == b[1..][k - 1];
      }
    }
  }

  lemma {:induction false} QueuedIsLogged(log: seq<Entry>, length: nat)
    requires forall k | 0 <= k < |log| :: |log[k].path| == length
    ensures forall q | q in QueueOf(log) :: |q| == length
  {
    if log != [] {
      QueuedIsLogged(log[1..], length);
    }
  }

  lemma {:induction false} ScanKeeps(s: State, left: nat)
    requires Invariant(s) && !s.inProcess
    ensures Invariant(Scan(s, left))
    decreases left
  {
    if left > 0 {
      if s.queues[s.current] != [] {
        EmitKeeps(s, s.current);
      } else {
        var next := s.(current := (s.current + 1) % CLASSES);
        forall c: nat | c < CLASSES ensures ClassKept(next, c) {
          assert ClassKept(s, c);
        }
        ScanKeeps(next, left - 1);
      }
    }
  }

  lemma SameClasses(s: State, t: State)
    requires Invariant(s) && t.queues == s.queues && t.logs == s.logs && t.events == s.events
    requires t.inProcess == s.inProcess && t.current < CLASSES
    ensures Invariant(t)
  {
    forall c: nat | c < CLASSES ensures ClassKept(t, c) {
      assert ClassKept(s, c);
    }
  }

  lemma ClearKeeps(s: State)
    requires Invariant(s)
    ensures Invariant(ClearLine(s)) && Invariant(ClearNode(ClearLine(s)))
  {
    var a := ClearLine(s);
    if s.closed != map[] {
      var t := Earliest(s.closed);
      DropAllKeeps(s, HasLine(s.closed[t].0, s.closed[t].1));
      SameClasses(DropAll(s, HasLine(s.closed[t].0, s.closed[t].1)), a);
    }
    if a.offline != map[] {
      var t := Earliest(a.offline);
      DropAllKeeps(a, HasNode(a.offline[t]));
      SameClasses(DropAll(a, HasNode(a.offline[t])), ClearNode(a));
    }
  }

  function Enqueued(s: State, path: Path): State
    requires Shaped(s) && 2 <= |path| < CLASSES + 2
  {
    var c := |path| - 2;
    s.(queues := s.queues[c := s.queues[c] + [path]], logs := s.logs[c := Accept(s.logs[c], path)])
  }

  lemma EnqueueKeepsClass(s: State, path: Path, d: nat)
    requires Invariant(s) && 2 <= |path| < CLASSES + 2 && d < CLASSES
    ensures ClassKept(Enqueued(s, path), d)
  {
    assert ClassKept(s, d);
    if d == |path| - 2 {
      AcceptQueues(s.logs[d], path);
    }
  }

  lemma AddKeeps(s: State, path: Path)
    requires Invariant(s) && 2 <= |path| < CLASSES + 2
    ensures Invariant(Enqueued(s, path))
  {
    forall d: nat | d < CLASSES ensures ClassKept(Enqueued(s, path), d) {
      EnqueueKeepsClass(s, path, d);
    }
  }

  /** Every step, whatever it is, keeps the invariant. */
  lemma StepKeeps(s: State, op: Op)
    requires Invariant(s)
    ensures Invariant(Step(s, op))
  {
    match op
    case AddCycle(path, enabled) =>
      if 2 <= |path| < CLASSES + 2 {
        AddKeeps(s, path);
      }
    case CloseOneCycle(finished, enabled) =>
      if enabled {
        ReportKeeps(s);
        var reported := if finished then s.(inProcess := false, events := s.events + [Finished]) else s;
        ClearKeeps(reported);
        var cleared := ClearNode(ClearLine(reported));
        if !cleared.inProcess {
          ScanKeeps(cleared, CLASSES);
        }
      }
    case AddClosedTrustLine(now, source, destination) =>
      SameClasses(s, Step(s, op));
    case AddOfflineNode(now, node) =>
      SameClasses(s, Step(s, op));
  }

  // ----- Runs

  function Start(): State {
    State([[], [], [], []], 0, false, map[], map[], [[], [], [], []], [])
  }

  ghost function Run(s: State, ops: seq<Op>): (end: State)
    requires Shaped(s)
    ensures Shaped(end)
    decreases ops
  {
    if ops == [] then s else Run(Step(s, ops[0]), ops[1..])
  }

  lemma {:induction false} RunKeeps(s: State, ops: seq<Op>)
    requires Invariant(s)
    ensures Invariant(Run(s, ops))
    decreases ops
  {
    if ops != [] {
      StepKeeps(s, ops[0]);
      RunKeeps(Step(s, ops[0]), ops[1..]);
    }
  }

  /** The cycles of one class that a sequence of steps accepts. */
  function AcceptedOf(ops: seq<Op>, c: nat): seq<Path> {
    if ops == [] then []
    else (if ops[0].AddCycle? && ops[0].enabled && |ops[0].path| == c + 2 then [ops[0].path] else [])
         + AcceptedOf(ops[1..], c)
  }

  lemma {:induction false} ScanKeepsPaths(s: State, left: nat, c: nat)
    requires Invariant(s) && c < CLASSES
    ensures PathsOf(Scan(s, left).logs[c]) == PathsOf(s.logs[c])
    decreases left
  {
    if left > 0 {
      if s.queues[s.current] != [] {
        assert ClassKept(s, s.current);
        EmitFirstQueues(s.logs[s.current]);
      } else {
        SameClasses(s, s.(current := (s.current + 1) % CLASSES));
        ScanKeepsPaths(s.(current := (s.current + 1) % CLASSES), left - 1, c);
      }
    }
  }

  lemma ClearKeepsPaths(s: State, c: nat)
    requires Shaped(s) && c < CLASSES
    ensures PathsOf(ClearNode(ClearLine(s)).logs[c]) == PathsOf(s.logs[c])
  {
    if s.closed != map[] {
      var t := Earliest(s.closed);
      DropKeepsRest(s.logs[c], HasLine(s.closed[t].0, s.closed[t].1));
    }
    var a := ClearLine(s);
    if a.offline != map[] {
      DropKeepsRest(a.logs[c], HasNode(a.offline[Earliest(a.offline)]));
    }
  }

  lemma CloseKeepsPaths(s: State, finished: bool, c: nat)
    requires Invariant(s) && c < CLASSES
    ensures PathsOf(Step(s, CloseOneCycle(finished, true)).logs[c]) == PathsOf(s.logs[c])
  {
    hide PathsOf, ClassKept, OneAtATime, Open;
    var reported := if finished then s.(inProcess := false, events := s.events + [Finished]) else s;
    ReportKeeps(s);
    ClearKeeps(reported);
    ClearKeepsPaths(reported, c);
    ScanKeepsPaths(ClearNode(ClearLine(reported)), CLASSES, c);
  }

  lemma EnqueuedPaths(s: State, path: Path, c: nat)
    requires Invariant(s) && 2 <= |path| < CLASSES + 2 && c < CLASSES
    ensures PathsOf(Enqueued(s, path).logs[c]) == PathsOf(s.logs[c]) + if |path| == c + 2 then [path] else []
  {
    assert ClassKept(s, c);
    AcceptQueues(s.logs[c], path);
  }

  lemma StepLogs(s: State, op: Op, c: nat)
    requires Invariant(s) && c < CLASSES
    ensures PathsOf(Step(s, op).logs[c]) == PathsOf(s.logs[c]) + AcceptedOf([op], c)
  {
    hide PathsOf, ClassKept, OneAtATime, Open;
    assert [op][1..] == [];
    match op
    case AddCycle(path, enabled) =>
      if 2 <= |path| < CLASSES + 2 {
        EnqueuedPaths(s, path, c);
      }
    case CloseOneCycle(finished, enabled) =>
      CloseKeepsPaths(s, finished, c);
    case AddClosedTrustLine(now, source, destination) =>
    case AddOfflineNode(now, node) =>
  }

  lemma AcceptedCons(ops: seq<Op>, c: nat)
    requires ops != []
    ensures AcceptedOf(ops, c) == AcceptedOf([ops[0]], c) + AcceptedOf(ops[1..], c)
  {
    assert [ops[0]][1..] == [];
  }

  lemma Associate(a: seq<Path>, b: seq<Path>, c: seq<Path>)
    ensures (a + b) + c == a + (b + c)
  {}

  /** Over any run the log of every class holds exactly the cycles that were accepted, in that order. */
  lemma {:induction false} RunLogs(s: State, ops: seq<Op>, c: nat)
    requires Invariant(s) && c < CLASSES
    ensures PathsOf(Run(s, ops).logs[c]) == PathsOf(s.logs[c]) + AcceptedOf(ops, c)
    decreases ops
  {
    if ops != [] {
      StepLogs(s, ops[0], c);
      StepKeeps(s, ops[0]);
      var next := Step(s, ops[0]);
      RunLogs(next, ops[1..], c);
      AcceptedCons(ops, c);
      Associate(PathsOf(s.logs[c]), AcceptedOf([ops[0]], c), AcceptedOf(ops[1..], c));
    }
  }

  // ----- Reasons for removals

  /** Whether a report is a reason to remove a cycle: of a closed line or an offline node that it has. */
  predicate Removes(op: Op, p: Path) {
    match op
    case AddClosedTrustLine(_, source, destination) =>
      exists i | 0 <= i < |p| - 1 :: p[i] == source && p[i + 1] == destination
    case AddOfflineNode(_, node) => node in p
    case _ => false
  }

  predicate HasReason(past: seq<Op>, p: Path) {
    exists op | op in past :: Removes(op, p)
  }

  predicate LogJustified(log: seq<Entry>, past: seq<Op>) {
    forall i | 0 <= i < |log| :: log[i].fate.Removed? ==> HasReason(past, log[i].path)
  }

  /** All closed lines and offline nodes in the state were reported, and so was what any cycle was removed for. */
  predicate Justified(s: State, past: seq<Op>)
    requires Shaped(s)
  {
    && (forall t | t in s.closed :: Op.AddClosedTrustLine(t, s.closed[t].0, s.closed[t].1) in past)
    && (forall t | t in s.offline :: Op.AddOfflineNode(t, s.offline[t]) in past)
    && (forall c | 0 <= c < CLASSES :: LogJustified(s.logs[c], past))
  }

  lemma {:induction false} DropJustified(log: seq<Entry>, drop: Path -> bool, past: seq<Op>)
    requires LogJustified(log, past) && forall p | drop(p) :: HasReason(past, p)
    ensures LogJustified(Drop(log, drop), past)
  {
    if log != [] {
      forall i | 0 <= i < |log[1..]| ensures log[1..][i] == log[i + 1] {}
      DropJustified(log[1..], drop, past);
      var after := Drop(log, drop);
      forall i | 0 <= i < |after| && after[i].fate.Removed? ensures HasReason(past, after[i].path) {
        if i > 0 {
          assert after[i] == Drop(log[1..], drop)[i - 1];
        }
      }
    }
  }

  lemma {:induction false} EmitFirstJustified(log: seq<Entry>, past: seq<Op>)
    requires LogJustified(log, past)
    ensures LogJustified(EmitFirst(log), past)
  {
    if log != [] && !log[0].fate.Queued? {
      forall i | 0 <= i < |log[1..]| ensures log[1..][i] == log[i + 1] {}
      EmitFirstJustified(log[1..], past);
      var after := EmitFirst(log);
      forall i | 0 <= i < |after| && after[i].fate.Removed? ensures HasReason(past, after[i].path) {
        if i > 0 {
          assert after[i] == EmitFirst(log[1..])[i - 1];
        }
      }
    }
  }

  lemma DropAllJustified(s: State, drop: Path -> bool, past: seq<Op>)
    requires Shaped(s) && Justified(s, past) && forall p | drop(p) :: HasReason(past, p)
    ensures Justified(DropAll(s, drop), past)
  {
    forall c | 0 <= c < CLASSES ensures LogJustified(DropAll(s, drop).logs[c], past) {
      DropJustified(s.logs[c], drop, past);
    }
  }

  lemma ClearJustified(s: State, past: seq<Op>)
    requires Shaped(s) && Justified(s, past)
    ensures Justified(ClearLine(s), past) && Justified(ClearNode(s), past)
  {
    if s.closed != map[] {
      var t := Earliest(s.closed);
      var line := s.closed[t];
      forall p | HasLine(line.0, line.1)(p) ensures HasReason(past, p) {
        ContainsExactly(p, line.0, line.1);
        assert Removes(Op.AddClosedTrustLine(t, line.0, line.1), p);
      }
      DropAllJustified(s, HasLine(line.0, line.1), past);
    }
    if s.offline != map[] {
      var t := Earliest(s.offline);
      var node := s.offline[t];
      forall p | HasNode(node)(p) ensures HasReason(past, p) {
        assert Removes(Op.AddOfflineNode(t, node), p);
      }
      DropAllJustified(s, HasNode(node), past);
    }
  }

  lemma {:induction false} ScanJustified(s: State, left: nat, past: seq<Op>)
    requires Shaped(s) && Justified(s, past)
    ensures Justified(Scan(s, left), past)
    decreases left
  {
    if left > 0 {
      if s.queues[s.current] != [] {
        EmitFirstJustified(s.logs[s.current], past);
      } else {
        ScanJustified(s.(current := (s.current + 1) % CLASSES), left - 1, past);
      }
    }
  }

  lemma LaterJustified(s: State, past: seq<Op>, op: Op)
    requires Shaped(s) && Justified(s, past)
    ensures Justified(s, past + [op])
  {
    forall c | 0 <= c < CLASSES ensures LogJustified(s.logs[c], past + [op]) {
      forall i | 0 <= i < |s.logs[c]| && s.logs[c][i].fate.Removed? ensures HasReason(past + [op], s.logs[c][i].path) {
        var o :| o in past && Removes(o, s.logs[c][i].path);
        assert o in past + [op];
      }
    }
  }

  lemma StepJustified(s: State, op: Op, past: seq<Op>)
    requires Shaped(s) && Justified(s, past)
    ensures Justified(Step(s, op), past + [op])
  {
    LaterJustified(s, past, op);
    var now := past + [op];
    match op
    case AddCycle(path, enabled) =>
    case CloseOneCycle(finished, enabled) =>
      if enabled {
        var reported := if finished then s.(inProcess := false, events := s.events + [Finished]) else s;
        ClearJustified(reported, now);
        ClearJustified(ClearLine(reported), now);
        ScanJustified(ClearNode(ClearLine(reported)), CLASSES, now);
      }
    case AddClosedTrustLine(_, _, _) =>
      assert op in now;
    case AddOfflineNode(_, _) =>
      assert op in now;
  }

  lemma {:induction false} RunJustified(s: State, past: seq<Op>, ops: seq<Op>)
    requires Shaped(s) && Justified(s, past)
    ensures Justified(Run(s, ops), past + ops)
    decreases ops
  {
    if ops == [] {
      assert past + ops == past;
    } else {
      StepJustified(s, ops[0], past);
      RunJustified(Step(s, ops[0]), past + [ops[0]], ops[1..]);
      assert past + [ops[0]] + ops[1..] == past + ops;
    }
  }

  lemma {:induction false} WithoutMember(queue: seq<Path>, drop: Path -> bool, p: Path)
    ensures p in Without(queue, drop) <==> p in queue && !drop(p)
  {
    if queue != [] {
      WithoutMember(queue[1..], drop, p);
      assert queue == [queue[0]] + queue[1..];
    }
  }

  lemma {:induction false} ScanOnlyTakes(s: State, left: nat, c: nat, p: Path)
    requires Shaped(s) && c < CLASSES
    ensures p in Scan(s, left).queues[c] ==> p in s.queues[c]
    decreases left
  {
    if left > 0 && s.queues[s.current] == [] {
      ScanOnlyTakes(s.(current := (s.current + 1) % CLASSES), left - 1, c, p);
    }
  }

  /** A path without the earliest closed line and the earliest offline node, as far as there are any: the two ends of
      the line do not stand in it one right after the other. */
  predicate FreeOfReported(s: State, p: Path) {
    && (forall t | t in s.closed && (forall u | u in s.closed :: t <= u) ::
          forall i | 0 <= i < |p| - 1 :: p[i] != s.closed[t].0 || p[i + 1] != s.closed[t].1)
    && (forall t | t in s.offline && (forall u | u in s.offline :: t <= u) :: s.offline[t] !in p)
  }

  lemma WithoutLine(s: State, p: Path)
    requires s.closed != map[] ==> var line := s.closed[Earliest(s.closed)]; !ContainsTrustLine(p, line.0, line.1)
    requires s.offline != map[] ==> s.offline[Earliest(s.offline)] !in p
    ensures FreeOfReported(s, p)
  {
    forall t | t in s.closed && (forall u | u in s.closed :: t <= u)
      ensures forall i | 0 <= i < |p| - 1 :: p[i] != s.closed[t].0 || p[i + 1] != s.closed[t].1
    {
      EarliestIsUnique(s.closed, t);
      ContainsExactly(p, s.closed[t].0, s.closed[t].1);
    }
    forall t | t in s.offline && (forall u | u in s.offline :: t <= u) ensures s.offline[t] !in p {
      EarliestIsUnique(s.offline, t);
    }
  }

  /** After each call the earliest closed line and the earliest offline node are in no queued cycle any more, and
      nothing new is queued. */
  lemma ClosedIsGone(s: State, finished: bool, c: nat, p: Path)
    requires Shaped(s) && c < CLASSES
    ensures p in Step(s, CloseOneCycle(finished, true)).queues[c] ==> p in s.queues[c] && FreeOfReported(s, p)
  {
    hide FreeOfReported;
    var reported := if finished then s.(inProcess := false, events := s.events + [Finished]) else s;
    var a := ClearLine(reported);
    var cleared := ClearNode(a);
    if !cleared.inProcess {
      ScanOnlyTakes(cleared, CLASSES, c, p);
    }
    if s.offline != map[] {
      WithoutMember(a.queues[c], HasNode(s.offline[Earliest(s.offline)]), p);
    }
    if s.closed != map[] {
      var line := s.closed[Earliest(s.closed)];
      WithoutMember(s.queues[c], HasLine(line.0, line.1), p);
    }
    if p in Step(s, CloseOneCycle(finished, true)).queues[c] {
      WithoutLine(s, p);
    }
  }

  // ----- When a cycle is handed over

  /** What waits for the scan: the queued cycles without the earliest closed line and the earliest offline node. */
  lemma ClearedExactly(s: State, c: nat, p: Path)
    requires Shaped(s) && c < CLASSES
    ensures p in ClearNode(ClearLine(s)).queues[c] <==> p in s.queues[c] && FreeOfReported(s, p)
  {
    hide FreeOfReported;
    var a := ClearLine(s);
    if s.offline != map[] {
      WithoutMember(a.queues[c], HasNode(s.offline[Earliest(s.offline)]), p);
    }
    if s.closed != map[] {
      var line := s.closed[Earliest(s.closed)];
      WithoutMember(s.queues[c], HasLine(line.0, line.1), p);
    }
    FreeExactly(s, p);
  }

  lemma FreeExactly(s: State, p: Path)
    ensures FreeOfReported(s, p) <==>
      && (s.closed != map[] ==> var line := s.closed[Earliest(s.closed)]; !ContainsTrustLine(p, line.0, line.1))
      && (s.offline != map[] ==> s.offline[Earliest(s.offline)] !in p)
  {
    if FreeOfReported(s, p) && s.closed != map[] {
      ContainsExactly(p, s.closed[Earliest(s.closed)].0, s.closed[Earliest(s.closed)].1);
    }
    if (s.closed != map[] ==> var line := s.closed[Earliest(s.closed)]; !ContainsTrustLine(p, line.0, line.1))
       && (s.offline != map[] ==> s.offline[Earliest(s.offline)] !in p)
    {
      WithoutLine(s, p);
    }
  }

  /** Some queued cycle has neither the earliest closed line nor the earliest offline node. */
  predicate SomethingWaits(s: State)
    requires Shaped(s)
  {
    exists c, k | 0 <= c < 4 && 0 <= k < |s.queues[c]| :: FreeOfReported(s, s.queues[c][k])
  }

  /** Exactly when a call hands over a cycle: it is enabled, none is in process or the last one has been dealt with,
      and something waits. Then one is in process afterwards; and if something is in process that has not been dealt
      with, it stays so. */
  lemma HandsOverExactly(s: State, finished: bool)
    requires Shaped(s)
    ensures var after := Step(s, CloseOneCycle(finished, true));
      after.inProcess <==> (s.inProcess && !finished) || SomethingWaits(s)
    ensures Step(s, CloseOneCycle(finished, false)) == s
    ensures forall p :: Step(s, AddCycle(p, false)) == s
  {
    hide FreeOfReported, ClearLine, ClearNode;
    var reported := if finished then s.(inProcess := false, events := s.events + [Finished]) else s;
    var cleared := ClearNode(ClearLine(reported));
    ClearStops(reported);
    ReportedAlike(s, finished);
    ScanFinds(cleared);
    if SomethingWaits(s) {
      var c, k :| 0 <= c < 4 && 0 <= k < |s.queues[c]| && FreeOfReported(s, s.queues[c][k]);
      ClearedExactly(reported, c, s.queues[c][k]);
      assert cleared.queues[c] != [];
    }
    if Waiting(cleared) > 0 {
      var c :| 0 <= c < 4 && cleared.queues[c] != [];
      var p := cleared.queues[c][0];
      ClearedExactly(reported, c, p);
      var k :| 0 <= k < |s.queues[c]| && s.queues[c][k] == p;
    }
  }

  lemma ClearStops(s: State)
    requires Shaped(s)
    ensures ClearNode(ClearLine(s)).inProcess == s.inProcess
  {}

  lemma ReportedAlike(s: State, finished: bool)
    requires Shaped(s)
    ensures var reported := if finished then s.(inProcess := false, events := s.events + [Finished]) else s;
      forall p :: FreeOfReported(reported, p) <==> FreeOfReported(s, p)
  {}

  // ----- Reports take effect

  /** The reports up to some time. */
  function UpTo<V>(m: map<int, V>, now: int): set<int> {
    set t | t in m && t <= now
  }

  lemma OneReportLess<V>(m: map<int, V>, now: int)
    requires now in m
    ensures var t := Earliest(m); t <= now && |UpTo(m - {t}, now)| == |UpTo(m, now)| - 1
  {
    var t := Earliest(m);
    assert t in UpTo(m, now);
    assert UpTo(m - {t}, now) == UpTo(m, now) - {t};
  }

  /** A report is kept beside the others, unless there is one for the same time, and changes nothing else. */
  lemma ReportIsKept(s: State, now: int, source: Node, destination: Node)
    requires Shaped(s)
    ensures var after := Step(s, Op.AddClosedTrustLine(now, source, destination));
      && after == s.(closed := after.closed)
      && after.closed.Keys == s.closed.Keys + {now}
      && (forall t | t in s.closed :: after.closed[t] == s.closed[t])
      && (now !in s.closed ==> after.closed[now] == (source, destination))
    ensures var after := Step(s, Op.AddOfflineNode(now, source));
      && after == s.(offline := after.offline)
      && after.offline.Keys == s.offline.Keys + {now}
      && (forall t | t in s.offline :: after.offline[t] == s.offline[t])
      && (now !in s.offline ==> after.offline[now] == source)
  {}

  predicate AllClose(ops: seq<Op>) {
    forall k | 0 <= k < |ops| :: ops[k].CloseOneCycle? && ops[k].enabled
  }

  lemma CloseReports(s: State, finished: bool)
    requires Shaped(s)
    ensures var after := Step(s, CloseOneCycle(finished, true));
      && (after.closed == if s.closed == map[] then s.closed else s.closed - {Earliest(s.closed)})
      && (after.offline == if s.offline == map[] then s.offline else s.offline - {Earliest(s.offline)})
  {
    var reported := if finished then s.(inProcess := false, events := s.events + [Finished]) else s;
    ScanStops(ClearNode(ClearLine(reported)), CLASSES);
  }

  lemma {:induction false} NothingNew(s: State, ops: seq<Op>, c: nat, p: Path)
    requires Shaped(s) && c < CLASSES && AllClose(ops) && p in Run(s, ops).queues[c]
    ensures p in s.queues[c]
    decreases ops
  {
    if ops != [] {
      hide Step;
      NothingNew(Step(s, ops[0]), ops[1..], c, p);
      ClosedIsGone(s, ops[0].finished, c, p);
    }
  }

  /** A report of a closed line has taken effect after as many calls as there are reports up to it: no cycle that was
      queued is still queued if it has the line. */
  lemma {:induction false} ClosedLineTakesEffect(s: State, now: int, ops: seq<Op>, c: nat, p: Path)
    requires Shaped(s) && c < CLASSES && now in s.closed && AllClose(ops)
    requires |ops| >= |UpTo(s.closed, now)| && p in Run(s, ops).queues[c]
    ensures p in s.queues[c]
    ensures forall i | 0 <= i < |p| - 1 :: p[i] != s.closed[now].0 || p[i + 1] != s.closed[now].1
    decreases ops
  {
    assert now in UpTo(s.closed, now);
    hide Step, Shaped;
    OneReportLess(s.closed, now);
    CloseReports(s, ops[0].finished);
    var t, next := Earliest(s.closed), Step(s, ops[0]);
    NothingNew(next, ops[1..], c, p);
    ClosedIsGone(s, ops[0].finished, c, p);
    if t != now {
      ClosedLineTakesEffect(next, now, ops[1..], c, p);
    }
  }

  /** The same for an offline node. */
  lemma {:induction false} OfflineNodeTakesEffect(s: State, now: int, ops: seq<Op>, c: nat, p: Path)
    requires Shaped(s) && c < CLASSES && now in s.offline && AllClose(ops)
    requires |ops| >= |UpTo(s.offline, now)| && p in Run(s, ops).queues[c]
    ensures p in s.queues[c] && s.offline[now] !in p
    decreases ops
  {
    assert now in UpTo(s.offline, now);
    hide Step, Shaped;
    OneReportLess(s.offline, now);
    CloseReports(s, ops[0].finished);
    var t, next := Earliest(s.offline), Step(s, ops[0]);
    NothingNew(next, ops[1..], c, p);
    ClosedIsGone(s, ops[0].finished, c, p);
    if t != now {
      OfflineNodeTakesEffect(next, now, ops[1..], c, p);
    }
  }

  lemma StartInvariant()
    ensures Invariant(Start()) && Justified(Start(), [])
  {
    forall c: nat | c < CLASSES ensures ClassKept(Start(), c) {}
  }

  /** What a run leaves of one class: its log holds the accepted cycles in order, each of them queued, handed over
      or removed, and removed only for a report. */
  predicate ClassAccounted(end: State, ops: seq<Op>, c: nat)
    requires Shaped(end) && c < CLASSES
  {
    && PathsOf(end.logs[c]) == AcceptedOf(ops, c)
    && QueueOf(end.logs[c]) == end.queues[c]
    && EmittedOf(end.logs[c]) == EmitsOf(end.events, c)
    && Fifo(end.logs[c])
    && LogJustified(end.logs[c], ops)
  }

  lemma RunClass(ops: seq<Op>, c: nat)
    requires c < CLASSES
    ensures ClassAccounted(Run(Start(), ops), ops, c)
  {
    hide Run, LogJustified, Fifo, QueueOf, EmittedOf, EmitsOf;
    StartInvariant();
    RunKeeps(Start(), ops);
    RunLogs(Start(), ops, c);
    RunJustified(Start(), [], ops);
    assert [] + ops == ops;
    assert ClassKept(Run(Start(), ops), c);
    assert PathsOf(Start().logs[c]) == [];
  }

  // ----- Waiting

  /** The call that says that the last cycle has been dealt with. */
  predicate Finishes(op: Op) {
    op.CloseOneCycle? && op.finished && op.enabled
  }

  /** While a cycle is in process and no such call comes, nothing is handed over or reported. */
  lemma {:induction false} Waits(s: State, ops: seq<Op>)
    requires Shaped(s) && s.inProcess && forall op | op in ops :: !Finishes(op)
    ensures Run(s, ops).inProcess && Run(s, ops).events == s.events
    decreases ops
  {
    if ops != [] {
      assert ops[0] in ops;
      Waits(Step(s, ops[0]), ops[1..]);
    }
  }

  /** How many cycles have been handed over. */
  function Emits(events: seq<Event>): nat {
    if events == [] then 0 else Emits(events[..|events| - 1]) + if events[|events| - 1].Emit? then 1 else 0
  }

  lemma EmitsNext(events: seq<Event>, e: Event)
    ensures Emits(events + [e]) == Emits(events) + if e.Emit? then 1 else 0
  {
    assert (events + [e])[..|events|] == events;
  }

  lemma {:induction false} ScanEmits(s: State, left: nat)
    requires Shaped(s)
    ensures Emits(Scan(s, left).events) > Emits(s.events) ==> Scan(s, left).inProcess
    decreases left
  {
    if left > 0 && s.queues[s.current] == [] {
      ScanEmits(s.(current := (s.current + 1) % CLASSES), left - 1);
    }
  }

  /** A step that hands over a cycle leaves it in process. */
  lemma StepEmits(s: State, op: Op)
    requires Shaped(s)
    ensures Emits(Step(s, op).events) > Emits(s.events) ==> Step(s, op).inProcess
  {
    if op.CloseOneCycle? {
      EmitsNext(s.events, Finished);
      var reported := if op.finished then s.(inProcess := false, events := s.events + [Finished]) else s;
      ScanEmits(ClearNode(ClearLine(reported)), CLASSES);
    }
  }

  /** The k-th step of a run from the start hands over a cycle. */
  ghost predicate HandsOver(ops: seq<Op>, k: nat)
    requires k < |ops|
  {
    Emits(Run(Start(), ops[..k + 1]).events) > Emits(Run(Start(), ops[..k]).events)
  }

  lemma {:induction false} RunSplit(s: State, a: seq<Op>, b: seq<Op>)
    requires Shaped(s)
    ensures Run(s, a + b) == Run(Run(s, a), b)
    decreases a
  {
    if a == [] {
      assert a + b == b;
    } else {
      assert (a + b)[1..] == a[1..] + b;
      RunSplit(Step(s, a[0]), a[1..], b);
    }
  }

  lemma RunNext(ops: seq<Op>, k: nat)
    requires k < |ops|
    ensures Run(Start(), ops[..k + 1]) == Step(Run(Start(), ops[..k]), ops[k])
  {
    assert ops[..k + 1] == ops[..k] + [ops[k]];
    RunSplit(Start(), ops[..k], [ops[k]]);
    assert [ops[k]][1..] == [];
    assert Run(Run(Start(), ops[..k]), [ops[k]]) == Run(Step(Run(Start(), ops[..k]), ops[k]), []);
  }

  /** After a step that hands over a cycle, another one does so only after the call that the first one is dealt
      with, or by that call. */
  lemma OneCallBetween(ops: seq<Op>, i: nat, j: nat)
    requires i < j < |ops| && HandsOver(ops, i) && HandsOver(ops, j)
    ensures exists k | i < k <= j :: Finishes(ops[k])
  {
    hide Run, Step, Emits;
    RunNext(ops, i);
    StepEmits(Run(Start(), ops[..i]), ops[i]);
    if forall k | i < k <= j :: !Finishes(ops[k]) {
      NothingBetween(ops, i + 1, j);
      NothingBetween(ops, i + 1, j + 1);
    }
  }

  lemma NothingBetween(ops: seq<Op>, i: nat, j: nat)
    requires i <= j <= |ops| && Run(Start(), ops[..i]).inProcess && forall k | i <= k < j :: !Finishes(ops[k])
    ensures Run(Start(), ops[..j]).events == Run(Start(), ops[..i]).events
  {
    hide Run;
    assert ops[..j] == ops[..i] + ops[i..j];
    RunSplit(Start(), ops[..i], ops[i..j]);
    Waits(Run(Start(), ops[..i]), ops[i..j]);
  }

  /** Over any run from the start: between two cycles handed over there is a call that the first one has been dealt
      with, and the report of it; every cycle accepted is exactly one of queued, handed over or removed, with each
      class in the order of acceptance; and a cycle is removed only for a reported closed line or offline node that
      it has. */
  lemma Runs(ops: seq<Op>)
    ensures OneAtATime(Run(Start(), ops).events)
    ensures forall i: nat, j: nat | i < j < |ops| && HandsOver(ops, i) && HandsOver(ops, j) ::
              exists k | i < k <= j :: Finishes(ops[k])
    ensures forall c: nat | c < CLASSES :: ClassAccounted(Run(Start(), ops), ops, c)
  {
    hide Run, HandsOver, Finishes;
    StartInvariant();
    RunKeeps(Start(), ops);
    forall i: nat, j: nat | i < j < |ops| && HandsOver(ops, i) && HandsOver(ops, j)
      ensures exists k | i < k <= j :: Finishes(ops[k])
    {
      OneCallBetween(ops, i, j);
    }
    forall c: nat | c < CLASSES ensures ClassAccounted(Run(Start(), ops), ops, c) {
      RunClass(ops, c);
    }
  }

  // ----- Draining

  /** How many cycles are queued. */
  function Waiting(s: State): nat
    requires Shaped(s)
  {
    |s.queues[0]| + |s.queues[1]| + |s.queues[2]| + |s.queues[3]|
  }

  lemma EmitWaiting(s: State, c: nat)
    requires Shaped(s) && c < CLASSES && s.queues[c] != []
    ensures Waiting(EmitFrom(s, c)) == Waiting(s) - 1
  {}

  /** The class that a scan of `left` steps looks at in its k-th step. */
  function ClassAt(s: State, k: nat): nat {
    (s.current + k) % CLASSES
  }

  /** A scan hands over the first cycle of some class, or the classes it looked at were all empty. */
  ghost predicate Hands(s: State, after: State) {
    exists c: nat | c < CLASSES && Shaped(s) && s.queues[c] != [] :: after == EmitFrom(s.(current := c), c)
  }

  predicate AllEmpty(s: State, left: nat)
    requires Shaped(s)
  {
    forall k: nat | k < left :: s.queues[ClassAt(s, k)] == []
  }

  lemma {:induction false} ScanOutcome(s: State, left: nat)
    requires Shaped(s)
    ensures if AllEmpty(s, left) then Scan(s, left) == s.(inProcess := false, current := ClassAt(s, left))
            else Hands(s, Scan(s, left))
    decreases left
  {
    if left > 0 {
      assert ClassAt(s, 0) == s.current;
      if s.queues[s.current] != [] {
        assert s.(current := s.current) == s;
        assert Scan(s, left) == EmitFrom(s.(current := s.current), s.current);
      } else {
        var next := s.(current := ClassAt(s, 1));
        NextEmpty(s, left);
        ScanOutcome(next, left - 1);
        HandsAlike(s, next, Scan(s, left));
      }
    }
  }

  lemma NextEmpty(s: State, left: nat)
    requires Shaped(s) && left > 0 && s.queues[s.current] == []
    ensures AllEmpty(s, left) <==> AllEmpty(s.(current := ClassAt(s, 1)), left - 1)
    ensures ClassAt(s, left) == ClassAt(s.(current := ClassAt(s, 1)), left - 1)
  {
    var next := s.(current := ClassAt(s, 1));
    forall k: nat ensures ClassAt(next, k) == ClassAt(s, k + 1) {}
    if AllEmpty(next, left - 1) {
      forall k: nat | k < left ensures s.queues[ClassAt(s, k)] == [] {
        if k > 0 {
          assert ClassAt(next, k - 1) == ClassAt(s, k);
        }
      }
    }
    if AllEmpty(s, left) {
      forall k: nat | k < left - 1 ensures next.queues[ClassAt(next, k)] == [] {
        assert ClassAt(next, k) == ClassAt(s, k + 1);
      }
    }
  }

  /** A step past an empty class, as the loop makes it. */
  lemma ScanNext(s: State, left: nat)
    requires Shaped(s) && 0 < left <= CLASSES
    ensures var t := s.(current := ClassAt(s, CLASSES - left));
      t.queues[t.current] == [] ==>
        && Scan(t, left) == Scan(s.(current := ClassAt(s, CLASSES - left + 1)), left - 1)
        && ClassAt(t, 1) == ClassAt(s, CLASSES - left + 1)
    ensures ClassAt(s, CLASSES - left + 1) == s.current <==> left == 1
  {
    var t := s.(current := ClassAt(s, CLASSES - left));
    var u := s.(current := ClassAt(s, CLASSES - left + 1));
    assert t.(current := (t.current + 1) % CLASSES) == u;
  }

  /** The two ways in which the loop ends. */
  lemma ScanEnds(s: State, left: nat)
    requires Shaped(s)
    ensures left == 0 ==> Scan(s, left) == s.(inProcess := false)
    ensures left > 0 && s.queues[s.current] != [] ==> Scan(s, left) == EmitFrom(s, s.current)
  {}

  lemma HandsAlike(s: State, t: State, after: State)
    requires Shaped(s) && Shaped(t) && t == s.(current := t.current)
    ensures Hands(t, after) ==> Hands(s, after)
  {
    if Hands(t, after) {
      var c: nat :| c < CLASSES && t.queues[c] != [] && after == EmitFrom(t.(current := c), c);
      assert t.(current := c) == s.(current := c);
    }
  }

  /** The first class that is not empty, going around from the current one, is the one whose first cycle is handed
      over. */
  lemma {:induction false} ScanTakesFirst(s: State, left: nat, c: nat)
    requires Shaped(s) && c < 4 && s.queues[c] != [] && (c + 4 - s.current) % 4 < left
    requires forall d | 0 <= d < 4 && (d + 4 - s.current) % 4 < (c + 4 - s.current) % 4 :: s.queues[d] == []
    ensures var after := Scan(s, left);
      && after.queues == s.queues[c := s.queues[c][1..]] && after.events == s.events + [Emit(s.queues[c][0])]
      && after.current == c && after.inProcess
    decreases left
  {
    if c != s.current {
      var next := s.(current := (s.current + 1) % CLASSES);
      assert s.queues[s.current] == [];
      ScanTakesFirst(next, left - 1, c);
    }
  }

  /** Four steps are enough to find a class that is not empty. */
  lemma ScanFinds(s: State)
    requires Shaped(s)
    ensures Waiting(s) > 0 ==> Waiting(Scan(s, CLASSES)) == Waiting(s) - 1 && Scan(s, CLASSES).inProcess
    ensures Waiting(s) == 0 ==> Scan(s, CLASSES) == s.(inProcess := false)
    ensures Scan(s, CLASSES).closed == s.closed && Scan(s, CLASSES).offline == s.offline
  {
    ScanOutcome(s, CLASSES);
    ScanStops(s, CLASSES);
    EveryClassLookedAt(s);
    if Waiting(s) > 0 {
      var c: nat :| c < CLASSES && s.queues[c] != [] && Scan(s, CLASSES) == EmitFrom(s.(current := c), c);
      EmitWaiting(s.(current := c), c);
    }
  }

  lemma EveryClassLookedAt(s: State)
    requires Shaped(s)
    ensures AllEmpty(s, CLASSES) <==> Waiting(s) == 0
    ensures ClassAt(s, CLASSES) == s.current
  {
    if AllEmpty(s, CLASSES) {
      forall c: nat | c < CLASSES ensures s.queues[c] == [] {
        var k := (c + CLASSES - s.current) % CLASSES;
        assert ClassAt(s, k) == c;
      }
    }
  }

  lemma {:induction false} ScanStops(s: State, left: nat)
    requires Shaped(s)
    ensures Scan(s, left).closed == s.closed && Scan(s, left).offline == s.offline
    decreases left
  {
    if left > 0 && s.queues[s.current] == [] {
      ScanStops(s.(current := (s.current + 1) % CLASSES), left - 1);
    }
  }

  /** The same step over and over. */
  function Repeat(op: Op, n: nat): seq<Op> {
    if n == 0 then [] else [op] + Repeat(op, n - 1)
  }

  lemma DrainsOne(s: State)
    requires Shaped(s) && s.closed == map[] && s.offline == map[]
    ensures var next := Step(s, CloseOneCycle(true, true));
      && next.closed == map[] && next.offline == map[]
      && Waiting(next) == if Waiting(s) > 0 then Waiting(s) - 1 else 0
  {
    var reported := s.(inProcess := false, events := s.events + [Finished]);
    ScanFinds(reported);
  }

  lemma RunCons(s: State, op: Op, ops: seq<Op>)
    requires Shaped(s)
    ensures Run(s, [op] + ops) == Run(Step(s, op), ops)
  {
    assert ([op] + ops)[1..] == ops;
  }

  /** With nothing reported closed or offline, one report per waiting cycle hands them all over. */
  lemma {:induction false} Drains(s: State, n: nat)
    requires Invariant(s) && s.closed == map[] && s.offline == map[] && n >= Waiting(s)
    ensures Waiting(Run(s, Repeat(CloseOneCycle(true, true), n))) == 0
    decreases n
  {
    if n > 0 {
      var op := CloseOneCycle(true, true);
      DrainsOne(s);
      RunCons(s, op, Repeat(op, n - 1));
      StepKeeps(s, op);
      Drains(Step(s, op), n - 1);
    }
  }
}
