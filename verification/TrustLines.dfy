/** A trust line between two nodes: a signed balance between two credit limits, moved by payments. */
module TrustLines {
  import opened Amounts

  /** Balances are unchecked 256-bit integers with a sign: a larger magnitude loses its high bits. */
  function Narrow(x: int): int {
    if x >= 0 then x % WIDTH else -((-x) % WIDTH)
  }

  type Balance = x: int | -WIDTH < x < WIDTH

  datatype Line = Line(incoming: Amount, outgoing: Amount, balance: Balance,
                       totalOutgoing: Amount, totalIncoming: Amount)

  /** How a payment ends: done, refused for a limit, or cut short after the balance has already moved because
      the total of receipts leaves the range of amounts. */
  datatype Result = Done | OverLimit | TotalOverflow

  function Abs(x: int): nat {
    if x < 0 then -x else x
  }

  /** Within the limits: the contractor's debt up to the outgoing trust, the own debt up to the incoming one. */
  predicate WithinLimits(l: Line) {
    0 <= l.incoming + l.balance && l.balance <= l.outgoing
  }

  // ----- The test that both directions of payment make

  /** Whether the balance moves towards zero on the same side, as far as the truncated product shows it. */
  predicate Shrinks(balance: Balance, newBalance: Balance) {
    && Narrow(balance * newBalance) > 0
    && ((balance > 0 && balance > newBalance) || (balance < 0 && balance < newBalance))
  }

  predicate Exceeds(l: Line, newBalance: Balance) {
    || (newBalance < 0 && Abs(newBalance) > l.incoming)
    || (newBalance > 0 && newBalance > l.outgoing)
  }

  predicate Accepts(l: Line, newBalance: Balance) {
    Shrinks(l.balance, newBalance) || !Exceeds(l, newBalance)
  }

  lemma NarrowFits(x: int)
    ensures -WIDTH < Narrow(x) < WIDTH
    ensures Narrow(-x) == -Narrow(x)
    ensures -WIDTH < x < WIDTH ==> Narrow(x) == x
  {}

  function NewBalance(balance: Balance, change: int): Balance {
    NarrowFits(balance + change);
    Narrow(balance + change)
  }

  function AfterPay(l: Line, amount: Amount): (Line, Result) {
    var newBalance := NewBalance(l.balance, 0 - amount);
    if !Accepts(l, newBalance) then (l, OverLimit)
    else if l.totalOutgoing + amount > MAX_AMOUNT then (l.(balance := newBalance), TotalOverflow)
    else (l.(balance := newBalance, totalOutgoing := l.totalOutgoing + amount), Done)
  }

  function AfterAcceptPayment(l: Line, amount: Amount): (Line, Result) {
    var newBalance := NewBalance(l.balance, amount);
    if !Accepts(l, newBalance) then (l, OverLimit)
    else if l.totalIncoming + amount > MAX_AMOUNT then (l.(balance := newBalance), TotalOverflow)
    else (l.(balance := newBalance, totalIncoming := l.totalIncoming + amount), Done)
  }

  /** What a payment does to the line: if it is refused, nothing. Otherwise the balance becomes the exact difference,
      or lies 2^256 above it if that is out of range, and the total of what was paid grows by the amount unless it
      would overflow. Nothing else changes. */
  lemma PayMoves(l: Line, amount: Amount)
    ensures var (after, result) := AfterPay(l, amount);
      if result == OverLimit then after == l else
        && after.balance == l.balance - amount + (if l.balance - amount <= 0 - WIDTH then WIDTH else 0)
        && result == (if l.totalOutgoing + amount > MAX_AMOUNT then TotalOverflow else Done)
        && after.totalOutgoing == l.totalOutgoing + (if result == Done then amount else 0)
        && after.incoming == l.incoming && after.outgoing == l.outgoing && after.totalIncoming == l.totalIncoming
  {
    Sum(l.balance, 0 - amount);
  }

  lemma AcceptPaymentMoves(l: Line, amount: Amount)
    ensures var (after, result) := AfterAcceptPayment(l, amount);
      if result == OverLimit then after == l else
        && after.balance == l.balance + amount - (if l.balance + amount >= WIDTH then WIDTH else 0)
        && result == (if l.totalIncoming + amount > MAX_AMOUNT then TotalOverflow else Done)
        && after.totalIncoming == l.totalIncoming + (if result == Done then amount else 0)
        && after.incoming == l.incoming && after.outgoing == l.outgoing && after.totalOutgoing == l.totalOutgoing
  {
    Sum(l.balance, amount);
  }

  lemma Sum(balance: Balance, change: int)
    requires -WIDTH < change < WIDTH
    ensures var sum := balance + change;
      NewBalance(balance, change) == if sum >= WIDTH then sum - WIDTH else if sum <= -WIDTH then sum + WIDTH else sum
  {
    var sum := balance + change;
    NarrowFits(sum);
    if sum >= WIDTH {
      WrapsOnce(sum);
    } else if sum <= -WIDTH {
      WrapsOnce(-sum);
    }
  }

  /** What can still be paid. The sum is a balance, which wraps around, before it is an amount. */
  function AvailableOutgoing(l: Line): (available: Amount) {
    var sum := l.incoming + l.balance;
    if l.balance < 0 && Abs(l.balance) > l.incoming then 0
    else if sum >= WIDTH then WrapsOnce(sum); Narrow(sum)
    else NarrowFits(sum); Narrow(sum)
  }

  function AvailableIncoming(l: Line): (available: Amount) {
    var sum := l.outgoing - l.balance;
    if l.balance > 0 && l.balance > l.outgoing then 0
    else if sum >= WIDTH then WrapsOnce(sum); Narrow(sum)
    else NarrowFits(sum); Narrow(sum)
  }

  // ----- Exactness of the limits

  lemma WrapsOnce(x: nat)
    requires WIDTH <= x < 2 * WIDTH
    ensures x % WIDTH == x - WIDTH
  {}

  /** A new balance over a limit that would pass as nearer to zero, if its product with the old one did not
      truncate to zero. */
  predicate Truncates(l: Line, newBalance: Balance) {
    Exceeds(l, newBalance) && Nearer(l.balance, newBalance) && l.balance * newBalance % WIDTH == 0
  }

  lemma RefusedExactly(l: Line, newBalance: Balance)
    ensures !Accepts(l, newBalance) <==>
              Exceeds(l, newBalance) && (Nearer(l.balance, newBalance) ==> Truncates(l, newBalance))
  {
    AcceptsExactly(l, newBalance);
  }

  /** When a payment is refused, in terms of the own limit and the own debt, which is negative if the other side
      owes: for a new debt in range and over the limit, or for a truncated product. */
  predicate Refused(limit: Amount, debt: int, amount: Amount, truncates: bool) {
    truncates || limit < debt + amount < WIDTH
  }

  /** On any line, within its limits or not, that is what a positive payment is refused for; and nothing can be
      paid exactly within the limits. */
  lemma PayIsExact(l: Line, amount: Amount)
    ensures AfterPay(l, amount).1.OverLimit? <==>
              if amount == 0 then !WithinLimits(l)
              else Refused(l.incoming, 0 - l.balance, amount, Truncates(l, NewBalance(l.balance, 0 - amount)))
  {
    var sum := l.balance - amount;
    RefusedExactly(l, NewBalance(l.balance, 0 - amount));
    hide Accepts;
    if sum <= -WIDTH {
      WrapsOnce(-sum);
    } else {
      NarrowFits(sum);
    }
  }

  lemma AcceptPaymentIsExact(l: Line, amount: Amount)
    ensures AfterAcceptPayment(l, amount).1.OverLimit? <==>
              if amount == 0 then !WithinLimits(l)
              else Refused(l.outgoing, l.balance, amount, Truncates(l, NewBalance(l.balance, amount)))
  {
    var sum := l.balance + amount;
    RefusedExactly(l, NewBalance(l.balance, amount));
    hide Accepts;
    if sum >= WIDTH {
      WrapsOnce(sum);
    } else {
      NarrowFits(sum);
    }
  }

  /** What is available, in terms of limit and debt. */
  function Available(limit: Amount, debt: int): int {
    if debt > limit then 0 else if limit - debt >= WIDTH then limit - debt - WIDTH else limit - debt
  }

  lemma AvailableAmounts(l: Line)
    ensures AvailableOutgoing(l) == Available(l.incoming, 0 - l.balance)
    ensures AvailableIncoming(l) == Available(l.outgoing, l.balance)
  {
    var outgoing, incoming := l.incoming + l.balance, l.outgoing - l.balance;
    if outgoing >= WIDTH {
      WrapsOnce(outgoing);
    } else {
      NarrowFits(outgoing);
    }
    if incoming >= WIDTH {
      WrapsOnce(incoming);
    } else {
      NarrowFits(incoming);
    }
  }

  /** When the available amount is the right one to go by. While limit and credit together stay in range: if the
      product truncates exactly when the new debt wraps around, and neither is the rule. When they wrap around: if
      it truncates exactly beyond what is left of them. */
  predicate AvailableIsRight(limit: Amount, debt: int, amount: Amount, truncates: bool) {
    if limit - debt >= WIDTH then truncates <==> amount > limit - debt - WIDTH
    else truncates <==> debt + amount >= WIDTH
  }

  /** A product can only truncate for a balance that comes nearer to zero: by less than there was, or by wrapping
      around. */
  lemma WhenTruncated(l: Line, change: int)
    requires -WIDTH < change < WIDTH && Truncates(l, NewBalance(l.balance, change))
    ensures change > 0 ==> l.balance + change < 0 || l.balance + change >= WIDTH
    ensures change < 0 ==> l.balance + change > 0 || l.balance + change <= -WIDTH
  {
    NarrowFits(l.balance + change);
  }

  /** On any line a positive payment is refused exactly beyond the available amount, if and only if that amount is
      the right one to go by; and paying nothing, if and only if the line is within its limits. */
  lemma AvailableOutgoingDecides(l: Line, amount: Amount)
    ensures (AfterPay(l, amount).1.OverLimit? <==> amount > AvailableOutgoing(l)) <==>
              if amount == 0 then WithinLimits(l)
              else AvailableIsRight(l.incoming, 0 - l.balance, amount,
                                    Truncates(l, NewBalance(l.balance, 0 - amount)))
  {
    hide AfterPay, AvailableOutgoing, Truncates, NewBalance;
    PayIsExact(l, amount);
    AvailableAmounts(l);
    if Truncates(l, NewBalance(l.balance, 0 - amount)) {
      WhenTruncated(l, 0 - amount);
    }
  }

  lemma AvailableIncomingDecides(l: Line, amount: Amount)
    ensures (AfterAcceptPayment(l, amount).1.OverLimit? <==> amount > AvailableIncoming(l)) <==>
              if amount == 0 then WithinLimits(l)
              else AvailableIsRight(l.outgoing, l.balance, amount, Truncates(l, NewBalance(l.balance, amount)))
  {
    hide AfterAcceptPayment, AvailableIncoming, Truncates, NewBalance;
    AcceptPaymentIsExact(l, amount);
    AvailableAmounts(l);
    if Truncates(l, NewBalance(l.balance, amount)) {
      WhenTruncated(l, amount);
    }
  }

  /** Within the limits nothing truncates, and only the two sums matter. */
  predicate StaysInRange(limit: Amount, debt: int, amount: Amount) {
    (limit - debt < WIDTH || amount <= limit - debt - WIDTH) && debt + amount < WIDTH
  }

  lemma AvailableDecidesWithinLimits(l: Line, amount: Amount)
    requires WithinLimits(l)
    ensures (AfterPay(l, amount).1.OverLimit? <==> amount > AvailableOutgoing(l))
       <==> StaysInRange(l.incoming, 0 - l.balance, amount)
    ensures (AfterAcceptPayment(l, amount).1.OverLimit? <==> amount > AvailableIncoming(l))
       <==> StaysInRange(l.outgoing, l.balance, amount)
  {
    hide AfterPay, AfterAcceptPayment, AvailableOutgoing, AvailableIncoming, NewBalance, Truncates;
    AvailableOutgoingDecides(l, amount);
    AvailableIncomingDecides(l, amount);
    NothingTruncatesWithinLimits(l, NewBalance(l.balance, 0 - amount));
    NothingTruncatesWithinLimits(l, NewBalance(l.balance, amount));
  }

  lemma NothingTruncatesWithinLimits(l: Line, newBalance: Balance)
    requires WithinLimits(l)
    ensures !Truncates(l, newBalance)
  {}

  /** So an amount beyond what is available can get through: here with nothing available at all, in either
      direction. */
  lemma PayBeyondAvailable()
    ensures var l := Line(MAX_AMOUNT - 1, 0, -(MAX_AMOUNT - 1), 0, 0);
      WithinLimits(l) && AvailableOutgoing(l) == 0 && AfterPay(l, 5).1 == Done
    ensures var l := Line(0, MAX_AMOUNT - 1, MAX_AMOUNT - 1, 0, 0);
      WithinLimits(l) && AvailableIncoming(l) == 0 && AfterAcceptPayment(l, 5).1 == Done
  {
    PayIsExact(Line(MAX_AMOUNT - 1, 0, -(MAX_AMOUNT - 1), 0, 0), 5);
    AcceptPaymentIsExact(Line(0, MAX_AMOUNT - 1, MAX_AMOUNT - 1, 0, 0), 5);
  }

  /** And nothing may show as available when everything can be paid. */
  lemma AvailableWrapsAround()
    ensures var l := Line(MAX_AMOUNT - 1, 2, 2, 0, 0);
      WithinLimits(l) && AvailableOutgoing(l) == 0 && AfterPay(l, MAX_AMOUNT).1 == Done
    ensures var l := Line(2, MAX_AMOUNT - 1, -2, 0, 0);
      WithinLimits(l) && AvailableIncoming(l) == 0 && AfterAcceptPayment(l, MAX_AMOUNT).1 == Done
  {
    PayIsExact(Line(MAX_AMOUNT - 1, 2, 2, 0, 0), MAX_AMOUNT);
    AcceptPaymentIsExact(Line(2, MAX_AMOUNT - 1, -2, 0, 0), MAX_AMOUNT);
  }

  /** Within limits the truncation of the product never matters: the limit test alone decides. */
  lemma ProductTestIsRedundant(l: Line, newBalance: Balance)
    requires WithinLimits(l)
    ensures Accepts(l, newBalance) <==> !Exceeds(l, newBalance)
  {
    if Shrinks(l.balance, newBalance) {
      ProductSign(l.balance, newBalance);
    }
  }

  lemma ProductSign(a: int, b: int)
    requires Narrow(a * b) > 0
    ensures a * b > 0 && (a > 0 <==> b > 0) && (a < 0 <==> b < 0)
  {
    assert a > 0 && b < 0 ==> a * b < 0;
    assert a < 0 && b > 0 ==> a * b < 0;
  }

  /** No payment that moves the balance, on whatever line, moves it further out: afterwards it is within the
      limits, or on the same side and nearer to zero. */
  lemma NoPaymentMovesFurtherOut(l: Line, amount: Amount)
    ensures InOrNearer(l, AfterPay(l, amount))
    ensures InOrNearer(l, AfterAcceptPayment(l, amount))
  {
    var paid, accepted := NewBalance(l.balance, 0 - amount), NewBalance(l.balance, amount);
    if Accepts(l, paid) {
      AcceptedIsInOrNearer(l, paid);
    }
    if Accepts(l, accepted) {
      AcceptedIsInOrNearer(l, accepted);
    }
  }

  predicate InOrNearer(l: Line, r: (Line, Result)) {
    r.1.OverLimit? || WithinLimits(r.0) || Nearer(l.balance, r.0.balance)
  }

  predicate Nearer(balance: int, newBalance: int) {
    0 < newBalance < balance || balance < newBalance < 0
  }

  lemma AcceptedIsInOrNearer(l: Line, newBalance: Balance)
    requires Accepts(l, newBalance)
    ensures WithinLimits(l.(balance := newBalance)) || Nearer(l.balance, newBalance)
  {
    if Shrinks(l.balance, newBalance) {
      ProductSign(l.balance, newBalance);
    }
  }

  /** Whether a line beyond its limits accepts: exactly if the new balance is within the limits, or nearer to
      zero on the same side with a product that does not truncate to zero. */
  lemma AcceptsExactly(l: Line, newBalance: Balance)
    ensures Accepts(l, newBalance) <==>
              WithinLimits(l.(balance := newBalance)) ||
              (Nearer(l.balance, newBalance) && l.balance * newBalance % WIDTH != 0)
  {
    if Shrinks(l.balance, newBalance) {
      ProductSign(l.balance, newBalance);
    }
    if Nearer(l.balance, newBalance) {
      SameSideProduct(l.balance, newBalance);
    }
  }

  /** So a payment towards zero can be refused although it is available: here 2^128 off a balance of 2^129 over the
      limits, in either direction. */
  lemma RefusedTowardsZero()
    ensures var half: int := 0x1_0000_0000_0000_0000_0000_0000_0000_0000;
      var l := Line(0, 0, 2 * half, 0, 0);
      AfterPay(l, half).1 == OverLimit && half <= AvailableOutgoing(l) && Nearer(2 * half, half)
    ensures var half: int := 0x1_0000_0000_0000_0000_0000_0000_0000_0000;
      var l := Line(0, 0, -(2 * half), 0, 0);
      AfterAcceptPayment(l, half).1 == OverLimit && half <= AvailableIncoming(l) && Nearer(-(2 * half), -half)
  {
    var half: int := 0x1_0000_0000_0000_0000_0000_0000_0000_0000;
    assert 2 * half * half == 2 * WIDTH;
    RefusedExactly(Line(0, 0, 2 * half, 0, 0), half);
    RefusedExactly(Line(0, 0, -(2 * half), 0, 0), -half);
  }

  lemma SameSideProduct(a: int, b: int)
    requires Nearer(a, b)
    ensures a * b > 0
  {
    if a < 0 {
      assert (0 - a) * (0 - b) > 0;
      assert (0 - a) * (0 - b) == a * b;
    }
  }

  // ----- The object

  class TrustLine {
    var mIncomingTrustAmount: Amount
    var mOutgoingTrustAmount: Amount
    var mBalance: Balance
    var mTotalOutgoingReceiptsAmount: Amount
    var mTotalIncomingReceiptsAmount: Amount

    function State(): Line
      reads this
    {
      Line(mIncomingTrustAmount, mOutgoingTrustAmount, mBalance,
           mTotalOutgoingReceiptsAmount, mTotalIncomingReceiptsAmount)
    }

    constructor ()
      ensures State() == Line(0, 0, 0, 0, 0)
    {
      mIncomingTrustAmount, mOutgoingTrustAmount, mBalance := 0, 0, 0;
      mTotalOutgoingReceiptsAmount, mTotalIncomingReceiptsAmount := 0, 0;
    }

    /** Rejects the largest amount. */
    method SetIncomingTrustAmount(amount: Amount) returns (ok: bool)
      modifies this`mIncomingTrustAmount
      ensures ok <==> amount != MAX_AMOUNT
      ensures State() == if ok then old(State()).(incoming := amount) else old(State())
    {
      if amount == MAX_AMOUNT {
        return false;
      }
      mIncomingTrustAmount := amount;
      return true;
    }

    /** Rejects the largest amount. */
    method SetOutgoingTrustAmount(amount: Amount) returns (ok: bool)
      modifies this`mOutgoingTrustAmount
      ensures ok <==> amount != MAX_AMOUNT
      ensures State() == if ok then old(State()).(outgoing := amount) else old(State())
    {
      if amount == MAX_AMOUNT {
        return false;
      }
      mOutgoingTrustAmount := amount;
      return true;
    }

    method Pay(amount: Amount) returns (result: Result)
      modifies this`mBalance, this`mTotalOutgoingReceiptsAmount
      ensures (State(), result) == AfterPay(old(State()), amount)
      ensures result == OverLimit ==> State() == old(State())
      ensures result == Done ==> mTotalOutgoingReceiptsAmount == old(mTotalOutgoingReceiptsAmount) + amount
      ensures result != OverLimit && old(mBalance) - amount > 0 - WIDTH ==> mBalance == old(mBalance) - amount
    {
      PayMoves(State(), amount);
      NarrowFits(mBalance - amount);
      var newBalance := Narrow(mBalance - amount);
      if Narrow(mBalance * newBalance) > 0 {
        if mBalance > 0 && mBalance > newBalance {
          mBalance := newBalance;
          result := AddOutgoingReceipt(amount);
          return;
        }
        if mBalance < 0 && mBalance < newBalance {
          mBalance := newBalance;
          result := AddOutgoingReceipt(amount);
          return;
        }
      }
      if newBalance < 0 && Abs(newBalance) > mIncomingTrustAmount {
        return OverLimit;
      }
      if newBalance > 0 && newBalance > mOutgoingTrustAmount {
        return OverLimit;
      }
      mBalance := newBalance;
      result := AddOutgoingReceipt(amount);
    }

    method AcceptPayment(amount: Amount) returns (result: Result)
      modifies this`mBalance, this`mTotalIncomingReceiptsAmount
      ensures (State(), result) == AfterAcceptPayment(old(State()), amount)
      ensures result == OverLimit ==> State() == old(State())
      ensures result == Done ==> mTotalIncomingReceiptsAmount == old(mTotalIncomingReceiptsAmount) + amount
      ensures result != OverLimit && old(mBalance) + amount < WIDTH ==> mBalance == old(mBalance) + amount
    {
      AcceptPaymentMoves(State(), amount);
      NarrowFits(mBalance + amount);
      var newBalance := Narrow(mBalance + amount);
      if Narrow(mBalance * newBalance) > 0 {
        if mBalance > 0 && mBalance > newBalance {
          mBalance := newBalance;
          result := AddIncomingReceipt(amount);
          return;
        }
        if mBalance < 0 && mBalance < newBalance {
          mBalance := newBalance;
          result := AddIncomingReceipt(amount);
          return;
        }
      }
      if newBalance < 0 && Abs(newBalance) > mIncomingTrustAmount {
        return OverLimit;
      }
      if newBalance > 0 && newBalance > mOutgoingTrustAmount {
        return OverLimit;
      }
      mBalance := newBalance;
      result := AddIncomingReceipt(amount);
    }

    /** The checked addition to a total, which throws and leaves the total alone beyond the largest amount. */
    method AddOutgoingReceipt(amount: Amount) returns (result: Result)
      modifies this`mTotalOutgoingReceiptsAmount
      ensures result == if old(mTotalOutgoingReceiptsAmount) + amount > MAX_AMOUNT then TotalOverflow else Done
      ensures mTotalOutgoingReceiptsAmount == old(mTotalOutgoingReceiptsAmount) + if result.Done? then amount else 0
    {
      if mTotalOutgoingReceiptsAmount + amount > MAX_AMOUNT {
        return TotalOverflow;
      }
      mTotalOutgoingReceiptsAmount := mTotalOutgoingReceiptsAmount + amount;
      return Done;
    }

    method AddIncomingReceipt(amount: Amount) returns (result: Result)
      modifies this`mTotalIncomingReceiptsAmount
      ensures result == if old(mTotalIncomingReceiptsAmount) + amount > MAX_AMOUNT then TotalOverflow else Done
      ensures mTotalIncomingReceiptsAmount == old(mTotalIncomingReceiptsAmount) + if result.Done? then amount else 0
    {
      if mTotalIncomingReceiptsAmount + amount > MAX_AMOUNT {
        return TotalOverflow;
      }
      mTotalIncomingReceiptsAmount := mTotalIncomingReceiptsAmount + amount;
      return Done;
    }
  }
}
