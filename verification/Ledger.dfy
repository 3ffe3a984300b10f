/** The two ends of a trust line, kept by two nodes, as payments go back and forth between them. */
module Ledger {
  import opened Amounts
  import opened TrustLines

  /** One payment, made by the node whose line is looked at or by the other one. */
  datatype Payment = Sent(amount: Amount) | Received(amount: Amount)

  function Mirror(p: Payment): Payment {
    match p
    case Sent(amount) => Received(amount)
    case Received(amount) => Sent(amount)
  }

  /** The other end's view of a line: limits and totals swapped, balance negated. */
  function Mirrored(l: Line): Line {
    Line(l.outgoing, l.incoming, 0 - l.balance, l.totalIncoming, l.totalOutgoing)
  }

  function Step(l: Line, p: Payment): (Line, Result) {
    match p
    case Sent(amount) => AfterPay(l, amount)
    case Received(amount) => AfterAcceptPayment(l, amount)
  }

  /** The line after each payment of a sequence in turn, and how each one ended. */
  function Run(l: Line, payments: seq<Payment>): (Line, seq<Result>)
    decreases payments
  {
    if payments == [] then
      (l, [])
    else
      var (next, result) := Step(l, payments[0]);
      var (end, results) := Run(next, payments[1..]);
      (end, [result] + results)
  }

  function MirrorAll(payments: seq<Payment>): seq<Payment> {
    if payments == [] then [] else [Mirror(payments[0])] + MirrorAll(payments[1..])
  }

  lemma NegatedProduct(a: int, b: int)
    ensures (0 - a) * (0 - b) == a * b
  {}

  lemma AcceptsMirrors(l: Line, newBalance: Balance)
    ensures Accepts(Mirrored(l), 0 - newBalance) == Accepts(l, newBalance)
  {
    NegatedProduct(l.balance, newBalance);
  }

  lemma NewBalanceMirrors(balance: Balance, change: int)
    ensures NewBalance(0 - balance, 0 - change) == 0 - NewBalance(balance, change)
  {
    NarrowFits(balance + change);
    assert (0 - balance) + (0 - change) == -(balance + change);
  }

  lemma StepMirrors(l: Line, p: Payment)
    ensures Step(Mirrored(l), Mirror(p)) == (Mirrored(Step(l, p).0), Step(l, p).1)
  {
    var change := if p.Sent? then 0 - p.amount else p.amount;
    NewBalanceMirrors(l.balance, change);
    AcceptsMirrors(l, NewBalance(l.balance, change));
  }

  /** The two ends of a line stay mirrored over any payments in both directions, and each payment ends the same
      way on both: one end's exception is the other end's exception. */
  lemma {:induction false} RunMirrors(l: Line, payments: seq<Payment>)
    ensures Run(Mirrored(l), MirrorAll(payments)) == (Mirrored(Run(l, payments).0), Run(l, payments).1)
    decreases payments
  {
    if payments != [] {
      StepMirrors(l, payments[0]);
      RunMirrors(Step(l, payments[0]).0, payments[1..]);
    }
  }

  /** A line within its limits stays within them over any payments. */
  lemma {:induction false} RunKeepsLimits(l: Line, payments: seq<Payment>)
    requires WithinLimits(l)
    ensures WithinLimits(Run(l, payments).0)
    decreases payments
  {
    if payments != [] {
      var p := payments[0];
      var newBalance := NewBalance(l.balance, if p.Sent? then 0 - p.amount else p.amount);
      ProductTestIsRedundant(l, newBalance);
      RunKeepsLimits(Step(l, p).0, payments[1..]);
    }
  }

  // ----- Conservation

  /** What the receipts do not account for. */
  function Unexplained(l: Line): int {
    l.balance - l.totalIncoming + l.totalOutgoing
  }

  /** The new balance before it is cut to 256 bits. */
  function ExactBalance(l: Line, p: Payment): int {
    l.balance + if p.Sent? then 0 - p.amount else p.amount
  }

  /** The total that a payment adds to. */
  function TotalFor(l: Line, p: Payment): Amount {
    if p.Sent? then l.totalOutgoing else l.totalIncoming
  }

  /** Whether a payment changes what the receipts do not account for: exactly if it is accepted and either its
      receipt cannot be added although it moves the balance, or the sum of balance and payment leaves the range of
      balances. */
  predicate Distorts(l: Line, p: Payment) {
    var sum := ExactBalance(l, p);
    && Accepts(l, NewBalance(l.balance, sum - l.balance))
    && if TotalFor(l, p) + p.amount > MAX_AMOUNT then Narrow(sum) != l.balance else sum <= 0 - WIDTH || sum >= WIDTH
  }

  lemma StepConserves(l: Line, p: Payment)
    ensures Unexplained(Step(l, p).0) == Unexplained(l) <==> !Distorts(l, p)
  {
    var sum := ExactBalance(l, p);
    NarrowFits(sum);
    if sum >= WIDTH {
      WrapsOnce(sum);
    } else if sum <= 0 - WIDTH {
      WrapsOnce(0 - sum);
    }
  }

  /** A total that overflows throws after the balance has moved: here from five to three. */
  lemma OverflowMovesBalance()
    ensures var l := Line(10, 10, 5, MAX_AMOUNT - 1, 0);
      Step(l, Sent(2)) == (l.(balance := 3), TotalOverflow) && Unexplained(Step(l, Sent(2)).0) != Unexplained(l)
  {
    NarrowFits(3);
  }

  /** No payment of a sequence changes what the receipts do not account for. */
  predicate NoneDistorts(l: Line, payments: seq<Payment>)
    decreases payments
  {
    payments != [] ==> !Distorts(l, payments[0]) && NoneDistorts(Step(l, payments[0]).0, payments[1..])
  }

  /** The law for runs: while no payment distorts, balance minus received plus sent is constant. */
  lemma {:induction false} UndistortedRunConserves(l: Line, payments: seq<Payment>)
    requires NoneDistorts(l, payments)
    ensures Unexplained(Run(l, payments).0) == Unexplained(l)
    decreases payments
  {
    if payments != [] {
      hide Distorts, Step;
      StepConserves(l, payments[0]);
      UndistortedRunConserves(Step(l, payments[0]).0, payments[1..]);
    }
  }

  /** The amounts of all payments. */
  function Volume(payments: seq<Payment>): nat {
    if payments == [] then 0 else payments[0].amount + Volume(payments[1..])
  }

  /** The payments are too small to take the balance or a total out of its range, whatever the limits. */
  predicate InRange(l: Line, payments: seq<Payment>) {
    && Abs(l.balance) + Volume(payments) <= MAX_AMOUNT
    && l.totalOutgoing + Volume(payments) <= MAX_AMOUNT
    && l.totalIncoming + Volume(payments) <= MAX_AMOUNT
  }

  lemma StepInRange(l: Line, payments: seq<Payment>)
    requires payments != [] && InRange(l, payments)
    ensures !Distorts(l, payments[0]) && !Step(l, payments[0]).1.TotalOverflow?
    ensures InRange(Step(l, payments[0]).0, payments[1..])
  {
    hide Accepts;
    NarrowFits(ExactBalance(l, payments[0]));
  }

  /** Balance minus received plus sent is constant over any payments, on any line, also one over its limits, as
      long as their amounts together stay in range. */
  lemma {:induction false} RunConserves(l: Line, payments: seq<Payment>)
    requires InRange(l, payments)
    ensures NoneDistorts(l, payments) && Unexplained(Run(l, payments).0) == Unexplained(l)
    ensures TotalOverflow !in Run(l, payments).1
    decreases payments
  {
    if payments != [] {
      hide Distorts, Step, InRange;
      StepInRange(l, payments);
      StepConserves(l, payments[0]);
      RunConserves(Step(l, payments[0]).0, payments[1..]);
    }
  }

  // ----- What the payments of a run add up to

  /** What the payments that were not refused add to the balance. */
  function Moved(payments: seq<Payment>, results: seq<Result>): int
    requires |results| == |payments|
  {
    if payments == [] then 0
    else
      (if results[0] == OverLimit then 0
       else if payments[0].Sent? then 0 - payments[0].amount else payments[0].amount)
      + Moved(payments[1..], results[1..])
  }

  /** What was sent and entered into the total. */
  function SentDone(payments: seq<Payment>, results: seq<Result>): nat
    requires |results| == |payments|
  {
    if payments == [] then 0
    else (if payments[0].Sent? && results[0] == Done then payments[0].amount else 0)
         + SentDone(payments[1..], results[1..])
  }

  function ReceivedDone(payments: seq<Payment>, results: seq<Result>): nat
    requires |results| == |payments|
  {
    if payments == [] then 0
    else (if payments[0].Received? && results[0] == Done then payments[0].amount else 0)
         + ReceivedDone(payments[1..], results[1..])
  }

  /** One step, without a word about how it is computed. */
  lemma StepMoves(l: Line, p: Payment)
    ensures var (after, result) := Step(l, p);
      && (after.balance - l.balance - if result == OverLimit then 0 else if p.Sent? then 0 - p.amount else p.amount)
         in {0 - WIDTH, 0, WIDTH}
      && (-WIDTH < ExactBalance(l, p) < WIDTH && result != OverLimit ==> after.balance == ExactBalance(l, p))
      && (result == OverLimit ==> after == l)
      && after.totalOutgoing == l.totalOutgoing + (if p.Sent? && result == Done then p.amount else 0)
      && after.totalIncoming == l.totalIncoming + (if p.Received? && result == Done then p.amount else 0)
      && after.incoming == l.incoming && after.outgoing == l.outgoing
  {
    match p
    case Sent(amount) => PayMoves(l, amount);
    case Received(amount) => AcceptPaymentMoves(l, amount);
  }

  /** Over any payments, on any line, the totals grow by exactly what was done, and the limits stay. */
  lemma {:induction false} RunMoves(l: Line, payments: seq<Payment>)
    ensures var (end, results) := Run(l, payments);
      && |results| == |payments|
      && end.totalOutgoing == l.totalOutgoing + SentDone(payments, results)
      && end.totalIncoming == l.totalIncoming + ReceivedDone(payments, results)
      && end.incoming == l.incoming && end.outgoing == l.outgoing
    decreases payments
  {
    if payments != [] {
      hide Step;
      var (next, result) := Step(l, payments[0]);
      var (end, results) := Run(next, payments[1..]);
      StepMoves(l, payments[0]);
      RunMoves(next, payments[1..]);
      assert ([result] + results)[1..] == results;
    }
  }

  /** The balance moves by what was received less what was sent, up to multiples of 2^256. */
  lemma {:induction false} RunMovesModulo(l: Line, payments: seq<Payment>)
    ensures var (end, results) := Run(l, payments);
      |results| == |payments| && (end.balance - l.balance - Moved(payments, results)) % WIDTH == 0
    decreases payments
  {
    if payments != [] {
      hide Step;
      var p := payments[0];
      var (next, result) := Step(l, p);
      var (end, results) := Run(next, payments[1..]);
      StepMoves(l, p);
      RunMovesModulo(next, payments[1..]);
      assert ([result] + results)[1..] == results;
      var moved := if result == OverLimit then 0 else if p.Sent? then 0 - p.amount else p.amount;
      Multiples(next.balance - l.balance - moved, end.balance - next.balance - Moved(payments[1..], results));
    }
  }

  lemma Multiples(a: int, b: int)
    requires a in {0 - WIDTH, 0, WIDTH} && b % WIDTH == 0
    ensures (a + b) % WIDTH == 0
  {}

  /** No payment of a run that is not refused takes the balance out of its range. */
  predicate NoneWraps(l: Line, payments: seq<Payment>)
    decreases payments
  {
    payments != [] ==>
      && (Step(l, payments[0]).1 == OverLimit || -WIDTH < ExactBalance(l, payments[0]) < WIDTH)
      && NoneWraps(Step(l, payments[0]).0, payments[1..])
  }

  /** Then it moves by exactly what was received less what was sent. */
  lemma {:induction false} RunMovesBalance(l: Line, payments: seq<Payment>)
    requires NoneWraps(l, payments)
    ensures var (end, results) := Run(l, payments);
      |results| == |payments| && end.balance == l.balance + Moved(payments, results)
    decreases payments
  {
    if payments != [] {
      hide Step;
      var (next, result) := Step(l, payments[0]);
      var (end, results) := Run(next, payments[1..]);
      StepMoves(l, payments[0]);
      RunMovesBalance(next, payments[1..]);
      assert ([result] + results)[1..] == results;
    }
  }

  /** That is so on any line for payments whose volume fits together with the balance. */
  lemma {:induction false} VolumeDoesNotWrap(l: Line, payments: seq<Payment>)
    requires Abs(l.balance) + Volume(payments) <= MAX_AMOUNT
    ensures NoneWraps(l, payments)
    decreases payments
  {
    if payments != [] {
      hide Step;
      StepMoves(l, payments[0]);
      VolumeDoesNotWrap(Step(l, payments[0]).0, payments[1..]);
    }
  }

  /** And on a line within its limits for any number of payments, each of which fits together with both limits. */
  lemma {:induction false} WithinLimitsDoesNotWrap(l: Line, payments: seq<Payment>)
    requires WithinLimits(l)
    requires forall p | p in payments :: l.incoming + p.amount <= MAX_AMOUNT && l.outgoing + p.amount <= MAX_AMOUNT
    ensures NoneWraps(l, payments)
    decreases payments
  {
    if payments != [] {
      hide Step;
      var p := payments[0];
      assert p in payments;
      var next := Step(l, p).0;
      StepMoves(l, p);
      RunKeepsLimits(l, [p]);
      OneStep(l, p);
      WithinLimitsDoesNotWrap(next, payments[1..]);
    }
  }

  lemma OneStep(l: Line, p: Payment)
    ensures Run(l, [p]).0 == Step(l, p).0
  {
    assert [p][1..] == [];
  }
}
