/** The object that keeps the queues of cycles. */
module CyclesManagers {
  import opened Cycles

  class CyclesManager {
    /** The vectors of cycles with three, four, five and six nodes. */
    var mCycles: seq<seq<Path>>
    var mClosedTrustLines: map<int, (Node, Node)>
    var mOfflineNodes: map<int, Node>
    var mCurrentCycleClosingState: nat
    var mIsCycleInProcess: bool
    ghost var logs: seq<seq<Entry>>
    ghost var events: seq<Event>

    ghost function State(): State
      reads this
    {
      Cycles.State(mCycles, mCurrentCycleClosingState, mIsCycleInProcess, mClosedTrustLines, mOfflineNodes,
                   logs, events)
    }

    constructor ()
      ensures State() == Start()
    {
      mCycles, logs := [[], [], [], []], [[], [], [], []];
      mClosedTrustLines, mOfflineNodes, mCurrentCycleClosingState := map[], map[], 0;
      mIsCycleInProcess, events := false, [];
    }

    /** Queues a cycle, unless cycles must not be run. Throws on a length that has no class. */
    method AddCycle(cycle: Path, enabled: bool) returns (ok: bool)
      requires Shaped(State())
      modifies this
      ensures State() == Step(old(State()), Op.AddCycle(cycle, enabled))
      ensures ok <==> !enabled || 2 <= |cycle| <= 5
    {
      if !enabled {
        return true;
      }
      var c := |cycle| - 2;
      if !(0 <= c < CLASSES) {
        return false;
      }
      mCycles := mCycles[c := mCycles[c] + [cycle]];
      logs := logs[c := Accept(logs[c], cycle)];
      return true;
    }

    method AddClosedTrustLine(now: int, source: Node, destination: Node)
      requires Shaped(State())
      modifies this
      ensures State() == Step(old(State()), Op.AddClosedTrustLine(now, source, destination))
    {
      if now !in mClosedTrustLines {
        mClosedTrustLines := mClosedTrustLines[now := (source, destination)];
      }
    }

    method AddOfflineNode(now: int, node: Node)
      requires Shaped(State())
      modifies this
      ensures State() == Step(old(State()), Op.AddOfflineNode(now, node))
    {
      if now !in mOfflineNodes {
        mOfflineNodes := mOfflineNodes[now := node];
      }
    }

    /** Hands over the next cycle, unless cycles must not be run or one is being closed. `finished` says that the
        last one has been dealt with. */
    method CloseOneCycle(finished: bool, enabled: bool)
      requires Shaped(State())
      modifies this
      ensures State() == Step(old(State()), Op.CloseOneCycle(finished, enabled))
      ensures !enabled ==> State() == old(State())
      ensures enabled ==> (mIsCycleInProcess <==> (old(mIsCycleInProcess) && !finished) || old(SomethingWaits(State())))
    {
      HandsOverExactly(State(), finished);
      if !enabled {
        return;
      }
      if finished {
        mIsCycleInProcess := false;
        events := events + [Finished];
      }
      ClearClosedCycles();
      if mIsCycleInProcess {
        return;
      }
      HandOverNext();
    }

    /** Takes the first cycle of a class out of its queue and signals it. */
    method HandOver(c: nat)
      requires Shaped(State()) && c < CLASSES && mCycles[c] != []
      modifies this
      ensures State() == EmitFrom(old(State()), c)
    {
      var cycle := mCycles[c][0];
      mCycles := mCycles[c := mCycles[c][1..]];
      logs := logs[c := EmitFirst(logs[c])];
      events := events + [Emit(cycle)];
      mIsCycleInProcess := true;
    }

    method IncrementCurrentCycleClosingState()
      requires Shaped(State())
      modifies this`mCurrentCycleClosingState
      ensures State() == old(State()).(current := ClassAt(old(State()), 1))
    {
      match mCurrentCycleClosingState
      case 0 => mCurrentCycleClosingState := 1;
      case 1 => mCurrentCycleClosingState := 2;
      case 2 => mCurrentCycleClosingState := 3;
      case _ => mCurrentCycleClosingState := 0;
    }

    /** From the current class on, around all classes, to the first one with a cycle. */
    method HandOverNext()
      requires Shaped(State())
      modifies this
      ensures State() == Scan(old(State()), CLASSES)
    {
      hide Scan;
      ghost var left, before := CLASSES, State();
      var currentState := mCurrentCycleClosingState;
      while true
        invariant 0 < left <= CLASSES && State() == before.(current := ClassAt(before, CLASSES - left))
        invariant Scan(State(), left) == Scan(before, CLASSES)
        decreases left
      {
        ScanNext(before, left);
        ScanEnds(State(), left);
        var c := mCurrentCycleClosingState;
        if mCycles[c] != [] {
          HandOver(c);
          return;
        }
        IncrementCurrentCycleClosingState();
        left := left - 1;
        if currentState == mCurrentCycleClosingState {
          break;
        }
      }
      assert State() == before;
      ScanEnds(before, 0);
      mIsCycleInProcess := false;
    }

    /** Takes the earliest closed trust line and the earliest offline node into account. */
    method ClearClosedCycles()
      requires Shaped(State())
      modifies this
      ensures State() == ClearNode(ClearLine(old(State())))
    {
      if mClosedTrustLines != map[] {
        var t := FirstKey(mClosedTrustLines);
        EarliestIsUnique(mClosedTrustLines, t);
        var line := mClosedTrustLines[t];
        mClosedTrustLines := mClosedTrustLines - {t};
        RemoveCycles(HasLine(line.0, line.1));
      }
      if mOfflineNodes != map[] {
        var t := FirstKey(mOfflineNodes);
        EarliestIsUnique(mOfflineNodes, t);
        var node := mOfflineNodes[t];
        mOfflineNodes := mOfflineNodes - {t};
        RemoveCycles(HasNode(node));
      }
    }

    /** The four removals, one per class. */
    method RemoveCycles(drop: Path -> bool)
      requires Shaped(State())
      modifies this`mCycles, this`logs
      ensures State() == DropAll(old(State()), drop)
    {
      for c := 0 to CLASSES
        invariant |mCycles| == CLASSES && |logs| == CLASSES
        invariant forall d | 0 <= d < c :: mCycles[d] == Without(old(mCycles)[d], drop)
        invariant forall d | 0 <= d < c :: logs[d] == Drop(old(logs)[d], drop)
        invariant forall d | c <= d < CLASSES :: mCycles[d] == old(mCycles)[d] && logs[d] == old(logs)[d]
      {
        var kept := RemoveFrom(mCycles[c], drop);
        mCycles := mCycles[c := kept];
        logs := logs[c := Drop(logs[c], drop)];
      }
      assert mCycles == DropAll(old(State()), drop).queues;
      assert logs == DropAll(old(State()), drop).logs;
    }
  }

  /** The earliest time in a map. */
  method FirstKey<V>(m: map<int, V>) returns (t: int)
    requires m != map[]
    ensures IsEarliest(m, t)
  {
    EarliestExists(m);
    t :| IsEarliest(m, t);
  }

  /** Erases the cycles that `drop` applies to. */
  method RemoveFrom(cycles: seq<Path>, drop: Path -> bool) returns (kept: seq<Path>)
    ensures kept == Without(cycles, drop)
  {
    kept := cycles;
    var i := 0;
    while i < |kept|
      invariant i <= |kept| && kept[..i] + Without(kept[i..], drop) == Without(cycles, drop)
      decreases |kept| - i
    {
      FirstKeptOrNot(kept, i, drop);
      if drop(kept[i]) {
        kept := kept[..i] + kept[i + 1..];
      } else {
        i := i + 1;
      }
    }
    assert kept[i..] == [];
  }

  lemma FirstKeptOrNot(kept: seq<Path>, i: nat, drop: Path -> bool)
    requires i < |kept|
    ensures !drop(kept[i]) ==> kept[..i + 1] + Without(kept[i + 1..], drop) == kept[..i] + Without(kept[i..], drop)
    ensures drop(kept[i]) ==> var s := kept[..i] + kept[i + 1..];
      s[..i] + Without(s[i..], drop) == kept[..i] + Without(kept[i..], drop)
  {
    assert kept[i..][1..] == kept[i + 1..];
    var s := kept[..i] + kept[i + 1..];
    assert s[..i] == kept[..i] && s[i..] == kept[i + 1..];
    assert kept[..i + 1] == kept[..i] + [kept[i]];
  }
}
