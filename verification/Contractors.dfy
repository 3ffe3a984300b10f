/** The contractors kept in memory and in storage, and the allocation of their identifiers. */
module Contractors {

  const ID_COUNT: int := 0x1_0000_0000

  type ContractorID = n: int | 0 <= n < ID_COUNT

  const NOT_FOUND: ContractorID := ID_COUNT - 1

  datatype Result = Created(id: ContractorID) | Updated | Removed | ValueError | NotFoundError | StorageError

  // ----- The least free identifier

  predicate Sorted(s: seq<ContractorID>) {
    forall i, j | 0 <= i < j < |s| :: s[i] <= s[j]
  }

  function Insert(x: ContractorID, s: seq<ContractorID>): seq<ContractorID> {
    if s == [] || x <= s[0] then [x] + s else [s[0]] + Insert(x, s[1..])
  }

  /** The identifiers in ascending order. */
  function Ordered(s: seq<ContractorID>): seq<ContractorID> {
    if s == [] then [] else Insert(s[0], Ordered(s[1..]))
  }

  lemma {:induction false} InsertMember(x: ContractorID, s: seq<ContractorID>, y: ContractorID)
    ensures y in Insert(x, s) <==> y == x || y in s
  {
    if s != [] && x > s[0] {
      InsertMember(x, s[1..], y);
      assert s == [s[0]] + s[1..];
    }
  }

  lemma {:induction false} InsertIsSorted(x: ContractorID, s: seq<ContractorID>)
    requires Sorted(s)
    ensures Sorted(Insert(x, s))
  {
    if s != [] && x > s[0] {
      InsertIsSorted(x, s[1..]);
      forall y | y in Insert(x, s[1..])
        ensures s[0] <= y
      {
        InsertMember(x, s[1..], y);
      }
      var t := Insert(x, s[1..]);
      assert forall j | 0 <= j < |t| :: t[j] in t;
    }
  }

  lemma {:induction false} OrderedIsSorted(s: seq<ContractorID>)
    ensures Sorted(Ordered(s))
  {
    if s != [] {
      OrderedIsSorted(s[1..]);
      InsertIsSorted(s[0], Ordered(s[1..]));
    }
  }

  lemma {:induction false} OrderedMember(s: seq<ContractorID>, y: ContractorID)
    ensures y in Ordered(s) <==> y in s
  {
    if s != [] {
      OrderedMember(s[1..], y);
      InsertMember(s[0], Ordered(s[1..]), y);
      assert s == [s[0]] + s[1..];
    }
  }

  predicate IsLeastFree(ids: seq<ContractorID>, id: ContractorID) {
    id !in ids && forall n: ContractorID | n < id :: n in ids
  }

  predicate AllUsed(ids: seq<ContractorID>) {
    forall n: ContractorID :: n in ids
  }

  /** The least identifier that is not in use; zero if every one of them is. */
  method NextFreeID(ids: seq<ContractorID>) returns (id: ContractorID)
    ensures IsLeastFree(ids, id) || (AllUsed(ids) && id == 0)
  {
    if ids == [] {
      return 0;
    }
    var s := Ordered(ids);
    OrderedIsSorted(ids);
    forall n: ContractorID
      ensures n in s <==> n in ids
    {
      OrderedMember(ids, n);
    }
    assert ids[0] in s;
    id := FirstGap(s);
    assert IsLeastFree(s, id) ==> IsLeastFree(ids, id);
  }

  method FirstGap(s: seq<ContractorID>) returns (id: ContractorID)
    requires s != [] && Sorted(s)
    ensures IsLeastFree(s, id) || (AllUsed(s) && id == 0)
  {
    var prev := s[0];
    if prev != 0 {
      return 0;
    }
    for i := 1 to |s|
      invariant prev == s[i - 1]
      invariant forall n: ContractorID | n <= prev :: n in s
    {
      if s[i] - prev > 1 {
        return prev + 1;
      }
      prev := s[i];
    }
    return (prev + 1) % ID_COUNT;
  }

  // ----- What is in memory and what is in storage

  /** The addresses stored for a contractor, in the order in which they were saved. */
  function AddressesOf<A>(rows: seq<(ContractorID, A)>, id: ContractorID): seq<A> {
    if rows == [] then []
    else
      var before := AddressesOf(rows[..|rows| - 1], id);
      if rows[|rows| - 1].0 == id then before + [rows[|rows| - 1].1] else before
  }

  function WithoutContractor<A>(rows: seq<(ContractorID, A)>, id: ContractorID): seq<(ContractorID, A)> {
    if rows == [] then []
    else
      var before := WithoutContractor(rows[..|rows| - 1], id);
      if rows[|rows| - 1].0 == id then before else before + [rows[|rows| - 1]]
  }

  lemma {:induction false} AddressesWithout<A>(rows: seq<(ContractorID, A)>, id: ContractorID, other: ContractorID)
    ensures AddressesOf(WithoutContractor(rows, id), other) == if other == id then [] else AddressesOf(rows, other)
  {
    if rows != [] {
      var last, before := rows[|rows| - 1], WithoutContractor(rows[..|rows| - 1], id);
      AddressesWithout(rows[..|rows| - 1], id, other);
      assert (before + [last])[..|before|] == before;
    }
  }

  lemma {:induction false} RowsWithout<A>(rows: seq<(ContractorID, A)>, id: ContractorID)
    ensures forall row :: row in WithoutContractor(rows, id) <==> row in rows && row.0 != id
  {
    if rows != [] {
      RowsWithout(rows[..|rows| - 1], id);
      assert rows == rows[..|rows| - 1] + [rows[|rows| - 1]];
    }
  }

  lemma AddressSaved<A>(rows: seq<(ContractorID, A)>, row: (ContractorID, A), id: ContractorID)
    ensures AddressesOf(rows + [row], id) == AddressesOf(rows, id) + if row.0 == id then [row.1] else []
  {
    assert (rows + [row])[..|rows|] == rows;
  }

  /** Memory agrees with the two tables: the same identifiers, each of them once, with the same addresses; and
      no addresses are stored for others. */
  ghost predicate Agree<A(!new)>(contractors: map<ContractorID, seq<A>>, ids: seq<ContractorID>,
                                 rows: seq<(ContractorID, A)>)
  {
    && (forall i, j | 0 <= i < j < |ids| :: ids[i] != ids[j])
    && (forall id: ContractorID :: id in contractors <==> id in ids)
    && (forall id: ContractorID :: id in contractors ==> AddressesOf(rows, id) == contractors[id])
    && (forall row | row in rows :: row.0 in ids)
  }

  /** Storage determines what is in memory, so nothing is lost or gained by starting again from it. */
  lemma AgreementIsUnique<A(!new)>(a: map<ContractorID, seq<A>>, b: map<ContractorID, seq<A>>,
                                   ids: seq<ContractorID>, rows: seq<(ContractorID, A)>)
    requires Agree(a, ids, rows) && Agree(b, ids, rows)
    ensures a == b
  {
    assert forall id: ContractorID :: id in a <==> id in b;
  }

  lemma {:induction false} NoAddresses<A(!new)>(rows: seq<(ContractorID, A)>, id: ContractorID)
    requires forall row | row in rows :: row.0 != id
    ensures AddressesOf(rows, id) == []
  {
    if rows != [] {
      NoAddresses(rows[..|rows| - 1], id);
    }
  }

  /** A new contractor in memory and in both tables. */
  lemma CreatedAgrees<A(!new)>(contractors: map<ContractorID, seq<A>>, ids: seq<ContractorID>,
                               before: seq<(ContractorID, A)>, rows: seq<(ContractorID, A)>, id: ContractorID)
    requires Agree(contractors, ids, before) && id !in ids
    requires forall other: ContractorID | other != id :: AddressesOf(rows, other) == AddressesOf(before, other)
    requires forall row | row in rows :: row in before || row.0 == id
    ensures Agree(contractors[id := AddressesOf(rows, id)], ids + [id], rows)
  {}

  class ContractorsManager<A(==, !new)> {
    var contractors: map<ContractorID, seq<A>>
    var ids: seq<ContractorID>
    var rows: seq<(ContractorID, A)>

    ghost predicate Valid()
      reads this
    {
      Agree(contractors, ids, rows)
    }

    /** Starts from what is stored. Memory and storage agree unless addresses are stored for a contractor that is
        not; the identifiers are the table's primary key. */
    constructor (ids: seq<ContractorID>, rows: seq<(ContractorID, A)>)
      requires forall i, j | 0 <= i < j < |ids| :: ids[i] != ids[j]
      ensures this.ids == ids && this.rows == rows
      ensures Valid() <==> forall row | row in rows :: row.0 in ids
      ensures forall id: ContractorID :: id in contractors <==> id in ids
      ensures forall id: ContractorID | id in ids :: contractors[id] == AddressesOf(rows, id)
    {
      this.ids, this.rows := ids, rows;
      contractors := map[];
      new;
      for i := 0 to |ids|
        invariant this.ids == ids && this.rows == rows
        invariant forall id: ContractorID :: id in contractors <==> id in ids[..i]
        invariant forall id: ContractorID :: id in contractors ==> AddressesOf(rows, id) == contractors[id]
      {
        var addresses := AddressesOf(rows, ids[i]);
        contractors := contractors[ids[i] := addresses];
      }
    }

    /** Whether a contractor is found that has no addresses but those. The last identifier stands for none. */
    predicate Known(addresses: seq<A>)
      reads this
    {
      exists id | id in contractors && id != NOT_FOUND :: forall a | a in contractors[id] :: a in addresses
    }

    lemma KnownExactly(addresses: seq<A>)
      ensures Known(addresses) <==>
        exists id | id in contractors && id != 0xFFFF_FFFF ::
          forall k | 0 <= k < |contractors[id]| :: contractors[id][k] in addresses
    {
      if Known(addresses) {
        var id :| id in contractors && id != NOT_FOUND && forall a | a in contractors[id] :: a in addresses;
        assert forall k | 0 <= k < |contractors[id]| :: contractors[id][k] in addresses;
      }
    }

    /** Saves addresses of a contractor that has none stored. */
    method SaveAddresses(id: ContractorID, addresses: seq<A>)
      requires AddressesOf(rows, id) == []
      modifies this`rows
      ensures AddressesOf(rows, id) == addresses
      ensures forall other: ContractorID | other != id :: AddressesOf(rows, other) == old(AddressesOf(rows, other))
      ensures forall row | row in rows :: row in old(rows) || row.0 == id
      ensures |rows| == |old(rows)| + |addresses| && rows[..|old(rows)|] == old(rows)
      ensures forall k | 0 <= k < |addresses| :: rows[|old(rows)| + k] == (id, addresses[k])
    {
      ghost var before := rows;
      for i := 0 to |addresses|
        invariant |rows| == |before| + i && rows[..|before|] == before
        invariant forall k | 0 <= k < i :: rows[|before| + k] == (id, addresses[k])
        invariant AddressesOf(rows, id) == addresses[..i]
        invariant forall other: ContractorID | other != id :: AddressesOf(rows, other) == AddressesOf(before, other)
        invariant forall row | row in rows :: row in before || row.0 == id
      {
        ghost var now := rows;
        rows := rows + [(id, addresses[i])];
        forall any: ContractorID
          ensures AddressesOf(rows, any) == AddressesOf(now, any) + if any == id then [addresses[i]] else []
        {
          AddressSaved(now, (id, addresses[i]), any);
        }
      }
      assert addresses[..|addresses|] == addresses;
    }

    /** Takes in a contractor under the least free identifier, unless one is known by those addresses. When no
        identifier is free, storage refuses the new row, and what is in memory has already changed. */
    method CreateContractor(addresses: seq<A>) returns (r: Result)
      requires Valid()
      modifies this
      ensures r.ValueError? <==> old(Known(addresses))
      ensures r.StorageError? <==> !old(Known(addresses)) && AllUsed(old(ids))
      ensures r.ValueError? || r.StorageError? || r.Created?
      ensures r.ValueError? <==>
        exists id | id in old(contractors) && id != 0xFFFF_FFFF ::
          forall k | 0 <= k < |old(contractors)[id]| :: old(contractors)[id][k] in addresses
      ensures r.ValueError? ==> contractors == old(contractors)
      ensures r.Created? ==> ids == old(ids) + [r.id] && |rows| == |old(rows)| + |addresses|
      ensures r.Created? ==> rows[..|old(rows)|] == old(rows)
      ensures r.Created? ==> forall k | 0 <= k < |addresses| :: rows[|old(rows)| + k] == (r.id, addresses[k])
      ensures r.Created? ==> r.id !in old(ids) && forall n: ContractorID | n < r.id :: n in old(ids)
      ensures r.Created? ==> IsLeastFree(old(ids), r.id) && contractors == old(contractors)[r.id := addresses]
      ensures !r.StorageError? ==> Valid()
    {
      KnownExactly(addresses);
      hide Known, AddressesOf;
      if Known(addresses) {
        return ValueError;
      }
      ghost var was, table := rows, ids;
      var id := NextFreeID(ids);
      contractors := contractors[id := addresses];
      if id in ids {
        return StorageError;
      }
      NoAddresses(rows, id);
      ids := ids + [id];
      SaveAddresses(id, addresses);
      CreatedAgrees(old(contractors), table, was, rows, id);
      r := Created(id);
    }

    method RemoveAddresses(id: ContractorID)
      modifies this`rows
      ensures rows == WithoutContractor(old(rows), id)
      ensures forall other: ContractorID ::
        AddressesOf(rows, other) == if other == id then [] else old(AddressesOf(rows, other))
      ensures forall row :: row in rows <==> row in old(rows) && row.0 != id
    {
      ghost var before := rows;
      rows := WithoutContractor(rows, id);
      RowsWithout(before, id);
      forall other: ContractorID
        ensures AddressesOf(rows, other) == if other == id then [] else AddressesOf(before, other)
      {
        AddressesWithout(before, id, other);
      }
    }

    method UpdateContractorAddresses(id: ContractorID, addresses: seq<A>) returns (r: Result)
      requires Valid()
      modifies this
      ensures Valid()
      ensures r == if id in old(contractors) then Updated else NotFoundError
      ensures contractors == if id in old(contractors) then old(contractors)[id := addresses] else old(contractors)
    {
      if id !in contractors {
        return NotFoundError;
      }
      RemoveAddresses(id);
      SaveAddresses(id, addresses);
      contractors := contractors[id := addresses];
      r := Updated;
    }

    /** Deletes the row of a contractor, if there is one. */
    method RemoveRow(id: ContractorID) returns (deleted: bool)
      requires forall i, j | 0 <= i < j < |ids| :: ids[i] != ids[j]
      modifies this`ids
      ensures deleted == (id in old(ids))
      ensures forall i, j | 0 <= i < j < |ids| :: ids[i] != ids[j]
      ensures forall other :: other in ids <==> other in old(ids) && other != id
    {
      for i := 0 to |ids|
        invariant ids == old(ids) && id !in ids[..i]
      {
        if ids[i] == id {
          DropOne(ids, i);
          ids := ids[..i] + ids[i + 1..];
          return true;
        }
      }
      return false;
    }

    /** Removes a contractor, unless there are trust lines to it. */
    method RemoveContractor(id: ContractorID, hasTrustLines: bool) returns (r: Result)
      requires Valid()
      modifies this
      ensures Valid()
      ensures r == if !hasTrustLines && id in old(contractors) then Removed else ValueError
      ensures contractors == if hasTrustLines then old(contractors) else old(contractors) - {id}
    {
      if hasTrustLines {
        return ValueError;
      }
      RemoveAddresses(id);
      var deleted := RemoveRow(id);
      if !deleted {
        return ValueError;
      }
      contractors := contractors - {id};
      r := Removed;
    }
  }

  lemma DropOne(s: seq<ContractorID>, i: nat)
    requires i < |s| && forall j, k | 0 <= j < k < |s| :: s[j] != s[k]
    ensures var t := s[..i] + s[i + 1..];
      && (forall j, k | 0 <= j < k < |t| :: t[j] != t[k])
      && (forall x :: x in t <==> x in s && x != s[i])
  {
    var t := s[..i] + s[i + 1..];
    assert s == s[..i] + [s[i]] + s[i + 1..];
    assert forall j | 0 <= j < |t| :: t[j] == if j < i then s[j] else s[j + 1];
  }
}
