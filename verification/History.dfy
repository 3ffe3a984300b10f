/** Queries on the history of operations: pages of a fixed query order, filtered further while they are read. */
module History {
  import opened Wrappers

  datatype RecordType = TrustLineRecord | PaymentRecord | PaymentAdditionalRecord

  /** A row of the main or of the additional table. */
  datatype Record = Record(recordType: RecordType, equivalent: nat, timestamp: int, amount: nat,
                           contractorAddresses: seq<string>)

  const PORTION: nat := 1000

  // ----- Filters and pages

  function Filter<T>(s: seq<T>, keep: T -> bool): seq<T> {
    if s == [] then [] else (if keep(s[0]) then [s[0]] else []) + Filter(s[1..], keep)
  }

  /** At most `count` elements after the first `from`: what a query's limit and offset leave. */
  function Page<T>(s: seq<T>, count: nat, from: nat): seq<T> {
    var rest := if from < |s| then s[from..] else [];
    if count < |rest| then rest[..count] else rest
  }

  lemma {:induction false} FilterConcat<T>(a: seq<T>, b: seq<T>, keep: T -> bool)
    ensures Filter(a + b, keep) == Filter(a, keep) + Filter(b, keep)
  {
    if a == [] {
      assert a + b == b;
    } else {
      assert (a + b)[0] == a[0] && (a + b)[1..] == a[1..] + b;
      FilterConcat(a[1..], b, keep);
      var first := if keep(a[0]) then [a[0]] else [];
      assert first + (Filter(a[1..], keep) + Filter(b, keep)) == (first + Filter(a[1..], keep)) + Filter(b, keep);
    }
  }

  /** Filtering in two goes is filtering by both conditions. */
  lemma {:induction false} FilterTwice<T>(s: seq<T>, first: T -> bool, second: T -> bool, both: T -> bool)
    requires forall x | x in s :: both(x) == (first(x) && second(x))
    ensures Filter(Filter(s, first), second) == Filter(s, both)
  {
    if s != [] {
      FilterTwice(s[1..], first, second, both);
      if first(s[0]) {
        assert Filter(s, first)[1..] == Filter(s[1..], first);
      } else {
        assert Filter(s, first) == Filter(s[1..], first);
      }
    }
  }

  lemma {:induction false} WeakerFilterIsLonger<T>(s: seq<T>, strong: T -> bool, weak: T -> bool)
    requires forall x | x in s :: strong(x) ==> weak(x)
    ensures |Filter(s, strong)| <= |Filter(s, weak)|
  {
    if s != [] {
      WeakerFilterIsLonger(s[1..], strong, weak);
    }
  }

  /** Two pages that follow one another are one page. */
  lemma PagesJoin<T>(s: seq<T>, first: nat, second: nat, from: nat)
    ensures Page(s, first, from) + Page(s, second, from + first) == Page(s, first + second, from)
  {}

  /** What a reader gets who asks for one page of `size` after the other, `pages` times. */
  function PagesUpTo<T>(s: seq<T>, size: nat, pages: nat): seq<T> {
    if pages == 0 then [] else PagesUpTo(s, size, pages - 1) + Page(s, size, size * (pages - 1))
  }

  /** Page after page shows the rows in order, each of them once, and all of them in the end. */
  lemma {:induction false} PagesCoverAll<T>(s: seq<T>, size: nat, pages: nat)
    ensures PagesUpTo(s, size, pages) == Page(s, size * pages, 0)
    ensures size * pages >= |s| ==> PagesUpTo(s, size, pages) == s
  {
    if pages > 0 {
      PagesCoverAll(s, size, pages - 1);
      assert size * (pages - 1) + size == size * pages;
      PagesJoin(s, size * (pages - 1), size, 0);
    }
  }

  /** A page has the elements from `from` on, at most `count` of them. */
  lemma PageIs<T>(s: seq<T>, count: nat, from: nat)
    ensures |Page(s, count, from)| == if from >= |s| then 0 else if |s| - from < count then |s| - from else count
    ensures forall k | 0 <= k < |Page(s, count, from)| :: from + k < |s| && Page(s, count, from)[k] == s[from + k]
  {}

  /** A full page does not change when more follows. */
  lemma FullPageStays<T>(s: seq<T>, more: seq<T>, count: nat, from: nat)
    requires |Page(s, count, from)| == count
    ensures Page(s + more, count, from) == Page(s, count, from)
  {}

  /** One more element on a page that is not full. */
  lemma PageGrows<T>(s: seq<T>, x: T, count: nat, from: nat)
    requires |Page(s, count, from)| < count
    ensures Page(s + [x], count, from) == Page(s, count, from) + if |s| + 1 > from then [x] else []
  {}

  lemma KeepNext<T>(s: seq<T>, i: nat, keep: T -> bool)
    requires i < |s|
    ensures Filter(s[..i + 1], keep) == Filter(s[..i], keep) + if keep(s[i]) then [s[i]] else []
  {
    assert s[..i + 1] == s[..i] + [s[i]];
    FilterConcat(s[..i], [s[i]], keep);
    assert Filter([s[i]], keep) == if keep(s[i]) then [s[i]] else [];
  }

  /** The offset at which reading in portions stops: the first one not below `total`. */
  function Stop(offset: nat, portion: nat, total: nat): (stop: nat)
    requires portion >= 1
    ensures stop >= total && stop >= offset
    ensures offset >= total ==> stop == offset
    decreases total - offset
  {
    if offset >= total then offset else Stop(offset + portion, portion, total)
  }

  /** The rows that reading in portions gets to see. */
  function Seen<T>(rows: seq<T>, portion: nat, total: nat): seq<T>
    requires portion >= 1
  {
    Page(rows, Stop(0, portion, total), 0)
  }

  /** Reads portion after portion of the query result `rows`, until `total` rows are covered, and gathers a page
      of those to keep. */
  method Scan<T>(rows: seq<T>, portion: nat, total: nat, keep: T -> bool, recordsCount: nat, fromRecord: nat)
    returns (result: seq<T>)
    requires portion >= 1
    ensures result == Page(Filter(Seen(rows, portion, total), keep), recordsCount, fromRecord)
  {
    hide Stop, Filter;
    ScanStarts(rows, portion, total, keep);
    result := [];
    var currentOffset, countRecordsUnderConditions := 0, 0;
    ghost var seen := 0;
    while |result| < recordsCount && currentOffset < total
      invariant Stop(currentOffset, portion, total) == Stop(0, portion, total)
      invariant seen <= |rows| && seen <= Stop(0, portion, total)
      invariant countRecordsUnderConditions == |Filter(rows[..seen], keep)|
      invariant result == Page(Filter(rows[..seen], keep), recordsCount, fromRecord)
      invariant |result| < recordsCount ==> seen == if currentOffset < |rows| then currentOffset else |rows|
      decreases total - currentOffset
    {
      var records := Page(rows, portion, currentOffset);
      StopNext(currentOffset, portion, total);
      for i := 0 to |records|
        invariant |result| < recordsCount
        invariant seen == if records == [] then |rows| else currentOffset + i
        invariant countRecordsUnderConditions == |Filter(rows[..seen], keep)|
        invariant result == Page(Filter(rows[..seen], keep), recordsCount, fromRecord)
      {
        KeepNext(rows, seen, keep);
        if keep(records[i]) {
          PageGrows(Filter(rows[..seen], keep), rows[seen], recordsCount, fromRecord);
          countRecordsUnderConditions := countRecordsUnderConditions + 1;
          if countRecordsUnderConditions > fromRecord {
            result := result + [records[i]];
          }
        }
        seen := seen + 1;
        if |result| >= recordsCount {
          break;
        }
      }
      currentOffset := currentOffset + portion;
    }
    ScanEnds(rows, portion, total, keep, recordsCount, fromRecord, seen);
  }

  lemma ScanStarts<T>(rows: seq<T>, portion: nat, total: nat, keep: T -> bool)
    requires portion >= 1
    ensures Filter(rows[..0], keep) == [] && Stop(0, portion, total) >= total
  {}

  lemma StopNext(offset: nat, portion: nat, total: nat)
    requires portion >= 1 && offset < total
    ensures Stop(offset, portion, total) == Stop(offset + portion, portion, total) >= offset + portion
  {}

  lemma ScanEnds<T>(rows: seq<T>, portion: nat, total: nat, keep: T -> bool, recordsCount: nat, fromRecord: nat,
                    seen: nat)
    requires portion >= 1 && seen <= |Seen(rows, portion, total)|
    requires seen == |Seen(rows, portion, total)| ||
             |Page(Filter(rows[..seen], keep), recordsCount, fromRecord)| == recordsCount
    ensures Page(Filter(rows[..seen], keep), recordsCount, fromRecord)
         == Page(Filter(Seen(rows, portion, total), keep), recordsCount, fromRecord)
  {
    var all := Seen(rows, portion, total);
    assert all == rows[..seen] + all[seen..];
    FilterConcat(rows[..seen], all[seen..], keep);
    if seen < |all| {
      FullPageStays(Filter(rows[..seen], keep), Filter(all[seen..], keep), recordsCount, fromRecord);
    }
  }

  /** A total that covers the rows makes the portions invisible. */
  lemma AllSeen<T>(rows: seq<T>, portion: nat, total: nat)
    requires portion >= 1 && total >= |rows|
    ensures Seen(rows, portion, total) == rows
  {}

  // ----- The queries

  datatype TimeBounds = TimeBounds(from: Option<int>, to: Option<int>)
  datatype AmountBounds = AmountBounds(low: Option<nat>, high: Option<nat>)

  predicate InTime(r: Record, t: TimeBounds) {
    (t.from.Some? ==> r.timestamp >= t.from.value) && (t.to.Some? ==> r.timestamp <= t.to.value)
  }

  predicate InBounds(r: Record, a: AmountBounds) {
    (a.low.Some? ==> r.amount >= a.low.value) && (a.high.Some? ==> r.amount <= a.high.value)
  }

  /** Payments in one equivalent, or in all of them. */
  predicate IsPayment(r: Record, equivalent: Option<nat>) {
    r.recordType.PaymentRecord? && (equivalent.Some? ==> r.equivalent == equivalent.value)
  }

  function Matches(equivalent: Option<nat>, t: TimeBounds): Record -> bool {
    (r: Record) => IsPayment(r, equivalent) && InTime(r, t)
  }

  function MatchesAll(equivalent: Option<nat>, t: TimeBounds, a: AmountBounds): Record -> bool {
    (r: Record) => IsPayment(r, equivalent) && InTime(r, t) && InBounds(r, a)
  }

  function InEquivalent(equivalent: nat): Record -> bool {
    (r: Record) => r.equivalent == equivalent
  }

  function HasAddresses(addresses: seq<string>): Record -> bool {
    (r: Record) => ContainsAddresses(r, addresses)
  }

  function WithContractor(equivalent: nat, addresses: seq<string>): Record -> bool {
    (r: Record) => r.equivalent == equivalent && ContainsAddresses(r, addresses)
  }

  function Payments(equivalent: Option<nat>): Record -> bool {
    (r: Record) => IsPayment(r, equivalent)
  }

  function Bounded(a: AmountBounds): Record -> bool {
    (r: Record) => InBounds(r, a)
  }

  predicate ContainsAddresses(r: Record, addresses: seq<string>) {
    forall a | a in addresses :: a in r.contractorAddresses
  }

  lemma {:induction false} FilterAll<T>(s: seq<T>, keep: T -> bool)
    requires forall x | x in s :: keep(x)
    ensures Filter(s, keep) == s
  {
    if s != [] {
      FilterAll(s[1..], keep);
    }
  }

  // ----- What the filters keep

  /** Filtering keeps each row as often as it is there, or not at all. */
  lemma {:induction false} FilterKeeps<T>(s: seq<T>, keep: T -> bool, x: T)
    ensures multiset(Filter(s, keep))[x] == if keep(x) then multiset(s)[x] else 0
  {
    if s != [] {
      FilterKeeps(s[1..], keep, x);
      assert s == [s[0]] + s[1..];
    }
  }

  /** And it keeps them in order. */
  lemma {:induction false} FilterInOrder(rows: seq<Record>, keep: Record -> bool)
    requires LatestFirst(rows)
    ensures LatestFirst(Filter(rows, keep))
  {
    if rows != [] {
      FilterInOrder(rows[1..], keep);
      var more := Filter(rows[1..], keep);
      forall j | 0 <= j < |more| ensures rows[0].timestamp >= more[j].timestamp {
        FilterMember(rows[1..], keep, more[j]);
      }
    }
  }

  lemma PageInOrder(rows: seq<Record>, count: nat, from: nat)
    requires LatestFirst(rows)
    ensures LatestFirst(Page(rows, count, from))
  {}

  lemma {:induction false} FilterMember<T>(s: seq<T>, keep: T -> bool, x: T)
    ensures x in Filter(s, keep) <==> x in s && keep(x)
  {
    if s != [] {
      FilterMember(s[1..], keep, x);
      assert s == [s[0]] + s[1..];
    }
  }

  /** A row of the payment queries: a payment in the equivalent asked for, if one is, not before and not after the
      times, and not below and not above the amounts, as far as they are given. */
  lemma PaymentsWanted(table: seq<Record>, equivalent: Option<nat>, t: TimeBounds, a: AmountBounds, r: Record)
    ensures multiset(Filter(table, MatchesAll(equivalent, t, a)))[r] ==
      if r.recordType == PaymentRecord && equivalent in {None, Some(r.equivalent)}
         && (t.from == None || t.from.value <= r.timestamp) && (t.to == None || r.timestamp <= t.to.value)
         && (a.low == None || a.low.value <= r.amount) && (a.high == None || r.amount <= a.high.value)
      then multiset(table)[r] else 0
  {
    FilterKeeps(table, MatchesAll(equivalent, t, a), r);
  }

  /** A row of the contractor query: a record in the equivalent that has every one of the addresses. */
  lemma ContractorRowsWanted(table: seq<Record>, equivalent: nat, addresses: seq<string>, r: Record)
    ensures multiset(Filter(table, WithContractor(equivalent, addresses)))[r] ==
      if r.equivalent == equivalent && (forall k | 0 <= k < |addresses| :: addresses[k] in r.contractorAddresses)
      then multiset(table)[r] else 0
  {
    FilterKeeps(table, WithContractor(equivalent, addresses), r);
    assert ContainsAddresses(r, addresses) <==>
        forall k | 0 <= k < |addresses| :: addresses[k] in r.contractorAddresses;
  }

  /** A row that the unbounded query on the additional table keeps. */
  lemma AdditionalRowsWanted(additional: seq<Record>, equivalent: nat, t: TimeBounds, total: nat, r: Record)
    ensures var seen := AdditionalSeen(additional, equivalent, t, AmountBounds(None, None), total);
      multiset(seen)[r] ==
      if r.recordType == PaymentAdditionalRecord && r.equivalent == equivalent
         && (t.from == None || t.from.value <= r.timestamp) && (t.to == None || r.timestamp <= t.to.value)
      then multiset(additional)[r] else 0
  {
    FilterKeeps(additional, AdditionalInTime(equivalent, t), r);
  }

  function Additional(equivalent: nat): Record -> bool {
    (r: Record) => r.recordType.PaymentAdditionalRecord? && r.equivalent == equivalent
  }

  function AdditionalInTime(equivalent: nat, t: TimeBounds): Record -> bool {
    (r: Record) => r.recordType.PaymentAdditionalRecord? && r.equivalent == equivalent && InTime(r, t)
  }

  /** The rows of the additional table that are read, if the main table has `total` rows of their kind. */
  function AdditionalSeen(additional: seq<Record>, equivalent: nat, t: TimeBounds, a: AmountBounds, total: nat)
    : seq<Record>
  {
    var rows := Filter(additional, AdditionalInTime(equivalent, t));
    if Unbounded(a) then rows else Seen(rows, PORTION, total)
  }

  /** Every page of `seen` is the page of `rows`. */
  ghost predicate PagesAgree(seen: seq<Record>, rows: seq<Record>) {
    forall count: nat, from: nat :: Page(seen, count, from) == Page(rows, count, from)
  }

  /** The bounded query on the additional table takes its end from a count on the main table. It is right for
      all pages exactly if no row that it would have to keep lies beyond the portions that the count covers. */
  lemma AdditionalQueryExactly(rows: seq<Record>, a: AmountBounds, total: nat)
    ensures var seen := Seen(rows, PORTION, total);
      |seen| <= |rows| && seen == rows[..|seen|] &&
      (PagesAgree(Filter(seen, Bounded(a)), Filter(rows, Bounded(a)))
       <==> forall r | r in rows[|seen|..] :: !InBounds(r, a))
  {
    var seen := Seen(rows, PORTION, total);
    var beyond := rows[|seen|..];
    assert rows == seen + beyond;
    FilterConcat(seen, beyond, Bounded(a));
    FilterNone(beyond, Bounded(a));
    var kept := Filter(seen, Bounded(a));
    if PagesAgree(kept, Filter(rows, Bounded(a))) {
      assert Page(kept, |kept| + 1, 0) == Page(Filter(rows, Bounded(a)), |kept| + 1, 0);
    }
    if Filter(beyond, Bounded(a)) == [] {
      assert Filter(rows, Bounded(a)) == kept;
    }
  }

  lemma {:induction false} FilterNone<T>(s: seq<T>, keep: T -> bool)
    ensures Filter(s, keep) == [] <==> forall x | x in s :: !keep(x)
  {
    if s != [] {
      FilterNone(s[1..], keep);
      assert s == [s[0]] + s[1..];
    }
  }

  predicate MainOnly(rows: seq<Record>) {
    forall r | r in rows :: !r.recordType.PaymentAdditionalRecord?
  }

  predicate Unbounded(a: AmountBounds) {
    a.low.None? && a.high.None?
  }

  lemma CountIsZero(table: seq<Record>, equivalent: nat)
    requires MainOnly(table)
    ensures Filter(table, Additional(equivalent)) == []
  {
    FilterNone(table, Additional(equivalent));
  }

  /** As the main table holds no additional records, the bounded query on them sees none of them at all. */
  lemma AdditionalQueryIsEmpty(table: seq<Record>, additional: seq<Record>, equivalent: nat, t: TimeBounds,
                               a: AmountBounds)
    requires MainOnly(table) && !Unbounded(a)
    ensures AdditionalSeen(additional, equivalent, t, a, |Filter(table, Additional(equivalent))|) == []
  {
    CountIsZero(table, equivalent);
  }

  /** With no such rows in the main table nothing is found, however many the additional table has. */
  lemma AdditionalQueryMisses()
    ensures var a := AmountBounds(Some(1), None);
      var r := Record(PaymentAdditionalRecord, 1, 0, 5, []);
      AdditionalSeen([r], 1, TimeBounds(None, None), a, 0) == [] && InBounds(r, a)
  {}

  /** A table with one more row, in query order. */
  function Saved(r: Record, rows: seq<Record>): seq<Record> {
    if rows == [] || r.timestamp >= rows[0].timestamp then [r] + rows else [rows[0]] + Saved(r, rows[1..])
  }

  predicate LatestFirst(rows: seq<Record>) {
    forall i, j | 0 <= i < j < |rows| :: rows[i].timestamp >= rows[j].timestamp
  }

  lemma {:induction false} SavedRows(r: Record, rows: seq<Record>)
    ensures multiset(Saved(r, rows)) == multiset(rows) + multiset{r}
  {
    if rows != [] && r.timestamp < rows[0].timestamp {
      SavedRows(r, rows[1..]);
      assert rows == [rows[0]] + rows[1..];
    }
  }

  lemma SavedMember(r: Record, rows: seq<Record>, x: Record)
    ensures x in Saved(r, rows) <==> x == r || x in rows
  {
    SavedRows(r, rows);
    assert x in Saved(r, rows) <==> x in multiset(Saved(r, rows));
  }

  lemma {:induction false} SavedInOrder(r: Record, rows: seq<Record>)
    requires LatestFirst(rows)
    ensures LatestFirst(Saved(r, rows))
  {
    if rows != [] && r.timestamp < rows[0].timestamp {
      SavedInOrder(r, rows[1..]);
      var more := Saved(r, rows[1..]);
      forall j | 0 <= j < |more| ensures rows[0].timestamp >= more[j].timestamp {
        SavedMember(r, rows[1..], more[j]);
      }
    }
  }

  lemma SavedMainOnly(r: Record, rows: seq<Record>)
    requires MainOnly(rows) && !r.recordType.PaymentAdditionalRecord?
    ensures MainOnly(Saved(r, rows))
  {
    forall x | x in Saved(r, rows) ensures !x.recordType.PaymentAdditionalRecord? {
      SavedMember(r, rows, x);
    }
  }

  class HistoryStorage {
    /** The rows of the main table and of the additional table, latest first. */
    var table: seq<Record>
    var additionalTable: seq<Record>

    ghost predicate Valid()
      reads this
    {
      LatestFirst(table) && LatestFirst(additionalTable) && MainOnly(table)
    }

    constructor ()
      ensures Valid() && table == [] && additionalTable == []
    {
      table, additionalTable := [], [];
    }

    /** Saves a trust line or a payment. */
    method SaveRecord(r: Record)
      requires Valid() && !r.recordType.PaymentAdditionalRecord?
      modifies this`table
      ensures Valid() && multiset(table) == multiset(old(table)) + multiset{r}
    {
      SavedInOrder(r, table);
      SavedRows(r, table);
      SavedMainOnly(r, table);
      table := Saved(r, table);
    }

    /** Saves an additional record of a payment, in the other table. */
    method SavePaymentAdditionalRecord(r: Record)
      requires Valid() && r.recordType.PaymentAdditionalRecord?
      modifies this`additionalTable
      ensures Valid() && multiset(additionalTable) == multiset(old(additionalTable)) + multiset{r}
    {
      SavedInOrder(r, additionalTable);
      SavedRows(r, additionalTable);
      additionalTable := Saved(r, additionalTable);
    }

    /** The payments under all conditions, as if they had been selected at once. */
    method PaymentRecords(equivalent: Option<nat>, recordsCount: nat, fromRecord: nat, t: TimeBounds, a: AmountBounds)
      returns (result: seq<Record>)
      ensures result == Page(Filter(table, MatchesAll(equivalent, t, a)), recordsCount, fromRecord)
      ensures Valid() ==> LatestFirst(result)
    {
      if Valid() {
        FilterInOrder(table, MatchesAll(equivalent, t, a));
        PageInOrder(Filter(table, MatchesAll(equivalent, t, a)), recordsCount, fromRecord);
      }
      var rows := Filter(table, Matches(equivalent, t));
      FilterTwice(table, Matches(equivalent, t), Bounded(a), MatchesAll(equivalent, t, a));
      if a.low.None? && a.high.None? {
        FilterAll(rows, Bounded(a));
        return Page(rows, recordsCount, fromRecord);
      }
      var paymentRecordsCount := |Filter(table, Payments(equivalent))|;
      WeakerFilterIsLonger(table, Matches(equivalent, t), Payments(equivalent));
      AllSeen(rows, PORTION, paymentRecordsCount);
      result := Scan(rows, PORTION, paymentRecordsCount, Bounded(a), recordsCount, fromRecord);
    }

    /** The records of one equivalent whose contractor has all the given addresses. */
    method RecordsWithContractor(contractorAddresses: seq<string>, equivalent: nat, recordsCount: nat, fromRecord: nat)
      returns (result: seq<Record>)
      ensures result == Page(Filter(table, WithContractor(equivalent, contractorAddresses)), recordsCount, fromRecord)
      ensures Valid() ==> LatestFirst(result)
    {
      if Valid() {
        FilterInOrder(table, WithContractor(equivalent, contractorAddresses));
        PageInOrder(Filter(table, WithContractor(equivalent, contractorAddresses)), recordsCount, fromRecord);
      }
      var rows := Filter(table, InEquivalent(equivalent));
      FilterTwice(table, InEquivalent(equivalent), HasAddresses(contractorAddresses),
                  WithContractor(equivalent, contractorAddresses));
      AllSeen(rows, PORTION, |rows|);
      result := Scan(rows, PORTION, |rows|, HasAddresses(contractorAddresses), recordsCount, fromRecord);
    }

    /** The additional records in amount bounds, as far as the count on the main table lets them be seen: in tables
        that were saved to, not at all. */
    method PaymentAdditionalRecords(equivalent: nat, recordsCount: nat, fromRecord: nat, t: TimeBounds,
                                    a: AmountBounds)
      returns (result: seq<Record>)
      ensures var seen := AdditionalSeen(additionalTable, equivalent, t, a, |Filter(table, Additional(equivalent))|);
        result == Page(Filter(seen, Bounded(a)), recordsCount, fromRecord)
      ensures Valid() && (a.low.Some? || a.high.Some?) ==> result == []
    {
      var rows := Filter(additionalTable, AdditionalInTime(equivalent, t));
      if a.low.None? && a.high.None? {
        FilterAll(rows, Bounded(a));
        return Page(rows, recordsCount, fromRecord);
      }
      if MainOnly(table) {
        AdditionalQueryIsEmpty(table, additionalTable, equivalent, t, a);
      }
      var paymentRecordsCount := |Filter(table, Additional(equivalent))|;
      result := Scan(rows, PORTION, paymentRecordsCount, Bounded(a), recordsCount, fromRecord);
    }
  }
}
