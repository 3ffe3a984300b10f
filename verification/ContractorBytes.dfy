/** Contractors as bytes: the number of addresses in one byte, and the addresses one after another. */
module ContractorBytes {

  import opened Addresses
  import opened ByteStrings
  import opened Wrappers

  const IPV4_INCLUDING_PORT: Byte := 12
  const GNS_TYPE: Byte := 41

  const IPV4_SIZE: nat := 7

  /** Two bytes, the least significant one first. */
  function Word(n: nat): Bytes
    requires n < 65536
  {
    [n % 256, n / 256]
  }

  /** The number in two bytes. */
  function WordOf(low: Byte, high: Byte): (n: nat)
    ensures n < 65536 && Word(n) == [low, high]
  {
    low as int + (high as int) * 256
  }

  function SerializedSize(address: Address): nat {
    match address
    case IPv4(_, _, _, _, _) => IPV4_SIZE
    case GNS(name, provider) => 3 + |name| + 1 + |provider|
  }

  /** The bytes of an address. The length of a text is kept in two bytes, and no more of the text than that. */
  function Serialized(address: Address): (r: Bytes)
    ensures |r| == SerializedSize(address)
  {
    match address
    case IPv4(a, b, c, d, port) => [IPV4_INCLUDING_PORT, a, b, c, d] + Word(port)
    case GNS(name, provider) =>
      var text := FullAddress(address);
      var length := |text| % 65536;
      [GNS_TYPE] + Word(length) + text[..length] + Zeroes(|text| - length)
  }

  /** The address at the start of the bytes, if there is one. */
  function Deserialized(bytes: Bytes): Option<Address> {
    if bytes == [] then None
    else if bytes[0] == IPV4_INCLUDING_PORT && |bytes| >= IPV4_SIZE then
      Some(IPv4(bytes[1], bytes[2], bytes[3], bytes[4], WordOf(bytes[5], bytes[6])))
    else if bytes[0] == GNS_TYPE && |bytes| >= 3 then
      var length := WordOf(bytes[1], bytes[2]);
      if length == 0 || |bytes| < 3 + length then None else NameAtProvider(bytes[3..3 + length])
    else None
  }

  /** Whether the two bytes of length suffice for an address. */
  predicate Short(address: Address) {
    address.GNS? ==> |FullAddress(address)| < 65536
  }

  lemma GNSBytes(address: Address, rest: Bytes)
    requires address.GNS?
    ensures var text := FullAddress(address); var n := |text| % 65536;
      Deserialized(Serialized(address) + rest) == if n == 0 then None else NameAtProvider(text[..n])
  {
    var text := FullAddress(address);
    var n := |text| % 65536;
    var bytes := Serialized(address) + rest;
    assert bytes[1] == n % 256 && bytes[2] == n / 256;
    assert bytes[3..3 + n] == text[..n];
  }

  lemma IPv4Bytes(address: Address, rest: Bytes)
    requires address.IPv4?
    ensures Deserialized(Serialized(address) + rest) == Some(address)
  {
    var bytes := Serialized(address) + rest;
    assert bytes[1] == address.a && bytes[2] == address.b && bytes[3] == address.c && bytes[4] == address.d;
    assert bytes[5] == address.port % 256 && bytes[6] == address.port / 256;
  }

  lemma ShortNameReadsBack(address: Address, rest: Bytes)
    requires address.GNS? && Short(address)
    ensures var r := Deserialized(Serialized(address) + rest);
      r.Some? && Same(r.value, address) && SerializedSize(r.value) == SerializedSize(address)
  {
    hide Serialized, Deserialized, NameAtProvider, FullAddress, SerializedSize;
    GNSBytes(address, rest);
    NameLength(address);
    var text := FullAddress(address);
    assert |text| % 65536 == |text| && text[..|text|] == text;
    NameReadsBack(text);
    NameLength(NameAtProvider(text).value);
  }

  /** An address that is short enough is read back, and takes up as many bytes as it was written in. */
  lemma ShortReadsBack(address: Address, rest: Bytes)
    requires Short(address)
    ensures var r := Deserialized(Serialized(address) + rest);
      r.Some? && Same(r.value, address) && SerializedSize(r.value) == SerializedSize(address)
  {
    hide Serialized, Deserialized, FullAddress, SerializedSize;
    if address.IPv4? {
      IPv4Bytes(address, rest);
    } else {
      ShortNameReadsBack(address, rest);
    }
  }

  lemma NameLength(address: Address)
    ensures address.GNS? ==> SerializedSize(address) == 3 + |FullAddress(address)| > 3 && AT in FullAddress(address)
  {
    assert address.GNS? ==> FullAddress(address)[|address.name|] == AT;
  }

  /** A longer one is not. */
  lemma LongDoesNotReadBack(address: Address, rest: Bytes)
    requires !Short(address)
    ensures var r := Deserialized(Serialized(address) + rest); r.Some? ==> !Same(r.value, address)
  {
    GNSBytes(address, rest);
    var text := FullAddress(address);
    NameReadsBack(text[..|text| % 65536]);
  }

  // ----- All the addresses of a contractor

  function AllSerialized(addresses: seq<Address>): Bytes {
    if addresses == [] then [] else Serialized(addresses[0]) + AllSerialized(addresses[1..])
  }

  /** The next `count` addresses. */
  function AllDeserialized(bytes: Bytes, count: nat): Option<seq<Address>> {
    if count == 0 then Some([])
    else
      match Deserialized(bytes)
      case None => None
      case Some(first) =>
        if |bytes| < SerializedSize(first) then None
        else
          match AllDeserialized(bytes[SerializedSize(first)..], count - 1)
          case None => None
          case Some(more) => Some([first] + more)
  }

  function ContractorBytes(addresses: seq<Address>): Bytes {
    [|addresses| % 256] + AllSerialized(addresses)
  }

  function ContractorOf(bytes: Bytes): Option<seq<Address>> {
    if bytes == [] then None else AllDeserialized(bytes[1..], bytes[0])
  }

  /** Contractors are compared by their addresses, in order. */
  predicate SameContractor(x: seq<Address>, y: seq<Address>) {
    |x| == |y| && forall i | 0 <= i < |x| :: Same(x[i], y[i])
  }

  predicate AllShort(addresses: seq<Address>) {
    forall address | address in addresses :: Short(address)
  }

  predicate ReadsBack(r: Option<seq<Address>>, addresses: seq<Address>) {
    r.Some? && SameContractor(r.value, addresses)
  }

  lemma AllSerializedFirst(addresses: seq<Address>, rest: Bytes)
    requires addresses != []
    ensures AllSerialized(addresses) + rest == Serialized(addresses[0]) + (AllSerialized(addresses[1..]) + rest)
  {}

  lemma {:induction false} AllReadBack(addresses: seq<Address>, rest: Bytes)
    ensures ReadsBack(AllDeserialized(AllSerialized(addresses) + rest, |addresses|), addresses)
      <==> AllShort(addresses)
    decreases addresses
  {
    hide Serialized, AllSerialized, Deserialized, Same, Short, ReadsBack, AllDeserialized, AllShort, SerializedSize;
    if addresses == [] {
      NoneRead(AllSerialized(addresses) + rest);
    } else {
      var first, others := addresses[0], addresses[1..];
      var tail := AllSerialized(others) + rest;
      var bytes := Serialized(first) + tail;
      AllSerializedFirst(addresses, rest);
      AllReadBack(others, rest);
      FirstAndOthers(addresses);
      NextRead(bytes, addresses);
      if Short(first) {
        ShortReadsBack(first, tail);
        assert bytes[SerializedSize(first)..] == tail;
      } else {
        LongDoesNotReadBack(first, tail);
      }
    }
  }

  /** The addresses are read back if the first one is and then the others are. */
  lemma NextRead(bytes: Bytes, addresses: seq<Address>)
    requires addresses != []
    ensures ReadsBack(AllDeserialized(bytes, |addresses|), addresses) <==>
      var first := Deserialized(bytes);
      && first.Some? && Same(first.value, addresses[0]) && SerializedSize(first.value) <= |bytes|
      && ReadsBack(AllDeserialized(bytes[SerializedSize(first.value)..], |addresses| - 1), addresses[1..])
  {
    hide Deserialized, Same, SameContractor, SerializedSize;
    var first := Deserialized(bytes);
    if first.Some? && SerializedSize(first.value) <= |bytes| {
      match AllDeserialized(bytes[SerializedSize(first.value)..], |addresses| - 1)
      case None =>
      case Some(more) => SameFirst(first.value, more, addresses);
    }
  }

  lemma NoneRead(bytes: Bytes)
    ensures ReadsBack(AllDeserialized(bytes, 0), []) && AllShort([])
  {}

  lemma FirstAndOthers(addresses: seq<Address>)
    requires addresses != []
    ensures AllShort(addresses) <==> Short(addresses[0]) && AllShort(addresses[1..])
  {
    assert addresses == [addresses[0]] + addresses[1..];
  }

  lemma SameFirst(first: Address, more: seq<Address>, addresses: seq<Address>)
    requires addresses != []
    ensures SameContractor([first] + more, addresses) <==>
      Same(first, addresses[0]) && SameContractor(more, addresses[1..])
  {
    hide Same;
    var s, t := [first] + more, addresses[1..];
    assert s[0] == first && |t| == |addresses| - 1;
    if |more| == |t| {
      assert forall i | 0 <= i < |more| :: more[i] == s[i + 1] && t[i] == addresses[i + 1];
      assert SameContractor(s, addresses) ==> SameContractor(more, t);
      if Same(first, addresses[0]) && SameContractor(more, t) {
        forall i | 0 <= i < |s|
          ensures Same(s[i], addresses[i])
        {
          if i > 0 {
            assert Same(more[i - 1], t[i - 1]);
          }
        }
      }
    }
  }

  lemma {:induction false} CountKept(bytes: Bytes, count: nat)
    ensures var r := AllDeserialized(bytes, count); r.Some? ==> |r.value| == count
    decreases count
  {
    if count > 0 {
      var first := Deserialized(bytes);
      if first.Some? && |bytes| >= SerializedSize(first.value) {
        CountKept(bytes[SerializedSize(first.value)..], count - 1);
      }
    }
  }

  /** The contractor round trip: a contractor is read back from its bytes, whatever follows them, exactly when
      one byte holds the number of its addresses and two bytes hold the length of each text. */
  lemma ContractorReadsBack(addresses: seq<Address>, rest: Bytes)
    ensures ReadsBack(ContractorOf(ContractorBytes(addresses) + rest), addresses)
      <==> |addresses| < 256 && AllShort(addresses)
  {
    hide AllDeserialized, AllSerialized, SameContractor, AllShort;
    var bytes := ContractorBytes(addresses) + rest;
    assert bytes[1..] == AllSerialized(addresses) + rest;
    if |addresses| < 256 {
      AllReadBack(addresses, rest);
    } else {
      CountKept(bytes[1..], bytes[0]);
      OtherCount(ContractorOf(bytes), addresses);
    }
  }

  /** So one with 256 addresses is not, whatever the addresses, and neither is one whose text is too long: here a
      name of 65536 bytes. */
  lemma DoNotReadBack(address: Address, rest: Bytes)
    ensures var many := seq(256, _ => address); !ReadsBack(ContractorOf(ContractorBytes(many) + rest), many)
    ensures var long := [GNS(Zeroes(65536), [])]; !ReadsBack(ContractorOf(ContractorBytes(long) + rest), long)
  {
    hide ReadsBack, ContractorOf, ContractorBytes, Zeroes;
    ContractorReadsBack(seq(256, _ => address), rest);
    var name := GNS(Zeroes(65536), []);
    ContractorReadsBack([name], rest);
    assert !Short(name) && name in [name];
  }

  lemma OtherCount(r: Option<seq<Address>>, addresses: seq<Address>)
    requires r.Some? ==> |r.value| != |addresses|
    ensures !ReadsBack(r, addresses)
  {}

  lemma {:induction false} AllSerializedNext(addresses: seq<Address>, i: nat)
    requires i < |addresses|
    ensures AllSerialized(addresses[..i + 1]) == AllSerialized(addresses[..i]) + Serialized(addresses[i])
  {
    hide Serialized;
    if i == 0 {
      assert addresses[..1] == [addresses[0]] && addresses[..0] == [] && [addresses[0]][1..] == [];
    } else {
      AllSerializedNext(addresses[1..], i - 1);
      assert addresses[1..][..i] == addresses[..i + 1][1..] && addresses[1..][..i - 1] == addresses[..i][1..];
    }
  }

  // ----- One address in a buffer

  method SerializeIPv4(address: Address) returns (bytes: array<Byte>)
    requires address.IPv4?
    ensures fresh(bytes) && bytes[..] == Serialized(address)
    ensures bytes[..] == [12, address.a, address.b, address.c, address.d, address.port % 256, address.port / 256]
  {
    bytes := new Byte[IPV4_SIZE](_ => 0);
    bytes[0] := IPV4_INCLUDING_PORT;
    var mAddress, offset := [address.a, address.b, address.c, address.d], 1;
    for idx := 0 to 4
      invariant offset == 1 + idx && bytes[..offset] == [IPV4_INCLUDING_PORT] + mAddress[..idx]
    {
      bytes[offset] := mAddress[idx];
      offset := offset + 1;
    }
    assert mAddress[..4] == mAddress;
    ghost var head := [IPV4_INCLUDING_PORT] + mAddress;
    hide Word;
    CopyTo(bytes, offset, Word(address.port));
    assert bytes[..] == bytes[..offset + 2] == head + Word(address.port);
  }

  lemma NameLayout(address: Address)
    requires address.GNS?
    ensures var bytes, text := Serialized(address), address.name + [64] + address.provider;
      var length := |text| % 65536;
      && |bytes| == 3 + |text|
      && bytes[0] == 41 && bytes[1] == length % 256 && bytes[2] == length / 256
      && bytes[3..3 + length] == text[..length] && (forall i | 3 + length <= i < |bytes| :: bytes[i] == 0)
  {}

  method SerializeGNS(address: Address) returns (bytes: array<Byte>)
    requires address.GNS?
    ensures fresh(bytes) && bytes[..] == Serialized(address)
    ensures var text := address.name + [64] + address.provider;
      var length := |text| % 65536;
      && bytes.Length == 3 + |text|
      && bytes[0] == 41 && bytes[1] == length % 256 && bytes[2] == length / 256
      && bytes[3..3 + length] == text[..length] && (forall i | 3 + length <= i < bytes.Length :: bytes[i] == 0)
  {
    NameLayout(address);
    bytes := new Byte[SerializedSize(address)](_ => 0);
    var fullAddress := FullAddress(address);
    var addressLength := |fullAddress| % 65536;
    bytes[0] := GNS_TYPE;
    var offset := 1;
    ghost var head, text := [GNS_TYPE] + Word(addressLength), fullAddress[..addressLength];
    assert bytes[..] == [GNS_TYPE] + Zeroes(2 + |fullAddress|);
    CopyTo(bytes, offset, Word(addressLength));
    offset := offset + 2;
    assert bytes[..] == head + Zeroes(|fullAddress|) && |head| == offset;
    CopyTo(bytes, offset, fullAddress[..addressLength]);
    assert (head + Zeroes(|fullAddress|))[offset + addressLength..] == Zeroes(|fullAddress| - addressLength);
    assert bytes[..] == head + text + Zeroes(|fullAddress| - addressLength);
  }

  method SerializeAddress(address: Address) returns (bytes: array<Byte>)
    ensures fresh(bytes) && bytes[..] == Serialized(address)
  {
    if address.IPv4? {
      bytes := SerializeIPv4(address);
    } else {
      bytes := SerializeGNS(address);
    }
  }

  /** Copies the bytes of an address into a buffer and moves on. */
  method AppendAddress(bytes: array<Byte>, offset: nat, address: Address) returns (next: nat)
    requires offset + SerializedSize(address) <= bytes.Length
    modifies bytes
    ensures next == offset + SerializedSize(address)
    ensures bytes[..next] == old(bytes[..offset]) + Serialized(address)
  {
    hide Serialized, SerializedSize;
    var serializedAddress := SerializeAddress(address);
    CopyTo(bytes, offset, serializedAddress[..]);
    next := offset + SerializedSize(address);
  }

  method IPv4FromBytes(buffer: Bytes) returns (address: Address)
    requires |buffer| >= IPV4_SIZE && buffer[0] == IPV4_INCLUDING_PORT
    ensures Deserialized(buffer) == Some(address)
    ensures address == IPv4(buffer[1], buffer[2], buffer[3], buffer[4], buffer[5] + 256 * (buffer[6] as int))
  {
    var mAddress: Bytes, offset := [], 1;
    for idx := 0 to 4
      invariant offset == 1 + idx && mAddress == buffer[1..offset]
    {
      mAddress := mAddress + [buffer[offset]];
      offset := offset + 1;
    }
    address := IPv4(mAddress[0], mAddress[1], mAddress[2], mAddress[3], WordOf(buffer[offset], buffer[offset + 1]));
  }

  method GNSFromBytes(buffer: Bytes) returns (r: Option<Address>)
    requires buffer != [] && buffer[0] == GNS_TYPE
    ensures r == Deserialized(buffer)
    ensures r.Some? ==>
      |buffer| >= 3 && var length := buffer[1] + 256 * (buffer[2] as int);
      && 0 < length <= |buffer| - 3 && r.value.GNS?
      && r.value.name + [64] + r.value.provider == buffer[3..3 + length] && 64 !in r.value.name
    ensures r.None? ==>
      |buffer| >= 3 ==> var length := buffer[1] + 256 * (buffer[2] as int);
      length == 0 || length > |buffer| - 3 || 64 !in buffer[3..3 + length]
  {
    var offset := 1;
    if |buffer| < offset + 2 {
      return None;
    }
    var addressLength := WordOf(buffer[offset], buffer[offset + 1]);
    offset := offset + 2;
    if addressLength == 0 || |buffer| < offset + addressLength {
      return None;
    }
    NameReadsBack(buffer[offset..offset + addressLength]);
    Finds(buffer[offset..offset + addressLength], AT);
    r := NameAtProvider(buffer[offset..offset + addressLength]);
  }

  /** Reads the address at the start of a buffer by its kind. */
  method DeserializeAddress(buffer: Bytes) returns (r: Option<Address>)
    ensures r == Deserialized(buffer)
  {
    if buffer == [] {
      return None;
    }
    match buffer[0]
    case 12 =>
      if |buffer| < IPV4_SIZE {
        return None;
      }
      var address := IPv4FromBytes(buffer);
      r := Some(address);
    case 41 =>
      r := GNSFromBytes(buffer);
    case _ =>
      r := None;
  }

  class Contractor {
    var addresses: seq<Address>

    method SerializedSizeOf() returns (size: nat)
      ensures size == |ContractorBytes(addresses)|
    {
      size := 1;
      for i := 0 to |addresses|
        invariant size == 1 + |AllSerialized(addresses[..i])|
      {
        AllSerializedNext(addresses, i);
        size := size + SerializedSize(addresses[i]);
      }
      assert addresses[..|addresses|] == addresses;
    }

    method SerializeToBytes() returns (bytes: array<Byte>)
      ensures fresh(bytes) && bytes[..] == ContractorBytes(addresses)
      ensures bytes.Length > 0 && bytes[0] == |addresses| % 256
    {
      var size := SerializedSizeOf();
      bytes := new Byte[size](_ => 0);
      bytes[0] := |addresses| % 256;
      var offset: nat := 1;
      assert bytes[..1] == ContractorBytes(addresses)[..1];
      for i := 0 to |addresses|
        invariant fresh(bytes) && bytes.Length == size
        invariant 1 <= offset <= size && Written(addresses, i, bytes[..offset])
      {
        WrittenNext(addresses, i, bytes[..offset]);
        offset := AppendAddress(bytes, offset, addresses[i]);
      }
      AllWritten(addresses, bytes[..offset]);
      assert bytes[..offset] == bytes[..];
    }

    /** Reads the addresses from a buffer, one after another. */
    method Load(buffer: Bytes) returns (ok: bool)
      modifies this
      ensures ok == ContractorOf(buffer).Some?
      ensures ok ==> addresses == ContractorOf(buffer).value
    {
      hide AllDeserialized, Deserialized, Before, ContractorOf, SerializedSize;
      addresses := [];
      LoadStart(buffer);
      if buffer == [] {
        return false;
      }
      var count: nat, offset: nat := buffer[0], 1;
      for i := 0 to count
        invariant offset <= |buffer|
        invariant ContractorOf(buffer) == Before(addresses, AllDeserialized(buffer[offset..], count - i))
      {
        var address := DeserializeAddress(buffer[offset..]);
        LoadStep(buffer, offset, count - i, addresses, ContractorOf(buffer));
        if address.None? || |buffer| < offset + SerializedSize(address.value) {
          return false;
        }
        addresses := addresses + [address.value];
        offset := offset + SerializedSize(address.value);
      }
      LoadEnd(buffer, offset, addresses, ContractorOf(buffer));
      ok := true;
    }
  }

  /** The number of addresses and the first `i` of them. */
  ghost predicate Written(addresses: seq<Address>, i: nat, bytes: Bytes)
    requires i <= |addresses|
  {
    bytes == [|addresses| % 256] + AllSerialized(addresses[..i])
  }

  lemma WrittenNext(addresses: seq<Address>, i: nat, bytes: Bytes)
    requires i < |addresses| && Written(addresses, i, bytes)
    ensures Written(addresses, i + 1, bytes + Serialized(addresses[i]))
    ensures |bytes| + |Serialized(addresses[i])| <= |ContractorBytes(addresses)|
  {
    hide AllSerialized, Serialized;
    AllSerializedNext(addresses, i);
    PartFits(addresses, i + 1);
  }

  lemma AllWritten(addresses: seq<Address>, bytes: Bytes)
    requires Written(addresses, |addresses|, bytes)
    ensures bytes == ContractorBytes(addresses)
  {
    assert addresses[..|addresses|] == addresses;
  }

  lemma {:induction false} PartFits(addresses: seq<Address>, i: nat)
    requires i <= |addresses|
    ensures |AllSerialized(addresses[..i])| <= |AllSerialized(addresses)|
    decreases |addresses| - i
  {
    hide Serialized, AllSerialized;
    if i < |addresses| {
      AllSerializedNext(addresses, i);
      PartFits(addresses, i + 1);
    } else {
      assert addresses[..i] == addresses;
    }
  }

  lemma LoadStep(buffer: Bytes, offset: nat, count: nat, addresses: seq<Address>, all: Option<seq<Address>>)
    requires offset <= |buffer| && count > 0
    requires all == Before(addresses, AllDeserialized(buffer[offset..], count))
    ensures match Deserialized(buffer[offset..])
      case None => all.None?
      case Some(first) =>
        var next := offset + SerializedSize(first);
        if |buffer| < next then all.None?
        else all == Before(addresses + [first], AllDeserialized(buffer[next..], count - 1))
  {
    hide Deserialized, SerializedSize;
    match Deserialized(buffer[offset..])
    case None =>
    case Some(first) =>
      var next := offset + SerializedSize(first);
      if next <= |buffer| {
        assert buffer[offset..][SerializedSize(first)..] == buffer[next..];
        BeforeBefore(addresses, [first], AllDeserialized(buffer[next..], count - 1));
      }
  }

  lemma LoadEnd(buffer: Bytes, offset: nat, addresses: seq<Address>, all: Option<seq<Address>>)
    requires offset <= |buffer| && all == Before(addresses, AllDeserialized(buffer[offset..], 0))
    ensures all == Some(addresses)
  {
    BeforeEnds(addresses, None);
  }

  lemma LoadStart(buffer: Bytes)
    ensures ContractorOf(buffer) == if buffer == [] then None else Before([], AllDeserialized(buffer[1..], buffer[0]))
  {
    if buffer != [] {
      BeforeEnds([], AllDeserialized(buffer[1..], buffer[0]));
    }
  }
}
