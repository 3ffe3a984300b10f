/** Addresses of contractors: as text, and back. */
module Addresses {
  import opened ByteStrings
  import opened Wrappers

  type Port = p: int | 0 <= p < 65536

  const COLON: Byte := 58
  const AT: Byte := 64
  const DOT: Byte := 46
  const ZERO: Byte := 48
  const PLUS: Byte := 43
  const MINUS: Byte := 45

  /** The range of the numbers that are parsed. */
  const ULONG_COUNT: int := 0x1_0000_0000_0000_0000

  /** An IPv4 address with a port, or a name at a provider. */
  datatype Address = IPv4(a: Byte, b: Byte, c: Byte, d: Byte, port: Port) | GNS(name: Text, provider: Text)

  predicate IsDigit(c: Byte) {
    48 <= c <= 57
  }

  predicate AllDigits(s: Text) {
    forall i | 0 <= i < |s| :: IsDigit(s[i])
  }

  /** The position of the first `c`, or the length of the text. */
  function Find(s: Text, c: Byte): (k: nat)
    ensures k <= |s|
  {
    if s == [] || s[0] == c then 0 else 1 + Find(s[1..], c)
  }

  lemma {:induction false} Finds(s: Text, c: Byte)
    ensures var k := Find(s, c); c !in s[..k] && (k < |s| ==> s[k] == c)
  {
    if s != [] && s[0] != c {
      Finds(s[1..], c);
      var k := Find(s, c);
      assert s[..k] == [s[0]] + s[1..][..k - 1];
    }
  }

  lemma {:induction false} FindIs(before: Text, c: Byte, after: Text)
    requires c !in before
    ensures Find(before + [c] + after, c) == |before|
  {
    var s := before + [c] + after;
    if before != [] {
      assert s[1..] == before[1..] + [c] + after;
      FindIs(before[1..], c, after);
    }
  }

  // ----- Numbers

  function Decimal(n: nat): Text {
    if n < 10 then [ZERO + n] else Decimal(n / 10) + [ZERO + n % 10]
  }

  function Number(digits: Text): nat
    requires AllDigits(digits)
  {
    if digits == [] then 0 else Number(digits[..|digits| - 1]) * 10 + digits[|digits| - 1] - ZERO
  }

  function LeadingDigits(s: Text): (k: nat)
    ensures k <= |s| && forall i | 0 <= i < k :: IsDigit(s[i])
  {
    if s == [] || !IsDigit(s[0]) then 0 else 1 + LeadingDigits(s[1..])
  }

  /** The number at the start of a text: what follows its digits is ignored, and a minus sign wraps around. */
  function ParseNumber(s: Text): Option<nat> {
    if s != [] && IsSpace(s[0]) then ParseNumber(s[1..])
    else
      var signed := s != [] && (s[0] == PLUS || s[0] == MINUS);
      var t := if signed then s[1..] else s;
      var k := LeadingDigits(t);
      if k == 0 || Number(t[..k]) >= ULONG_COUNT then None
      else if signed && s[0] == MINUS then Some((ULONG_COUNT - Number(t[..k])) % ULONG_COUNT)
      else Some(Number(t[..k]))
  }

  lemma {:induction false} DecimalNumber(n: nat)
    ensures AllDigits(Decimal(n)) && Decimal(n) != [] && Number(Decimal(n)) == n
  {
    if n < 10 {
      assert [ZERO + n][..0] == [];
    } else {
      DecimalNumber(n / 10);
      var s := Decimal(n);
      assert s[..|s| - 1] == Decimal(n / 10);
    }
  }

  lemma {:induction false} AllDigitsLead(s: Text)
    requires AllDigits(s)
    ensures LeadingDigits(s) == |s|
  {
    if s != [] {
      AllDigitsLead(s[1..]);
    }
  }

  lemma DecimalParses(n: nat)
    requires n < ULONG_COUNT
    ensures ParseNumber(Decimal(n)) == Some(n)
  {
    var s := Decimal(n);
    DecimalNumber(n);
    AllDigitsLead(s);
    assert IsDigit(s[0]);
    assert s[..|s|] == s;
  }

  lemma DecimalHasNo(n: nat, c: Byte)
    requires !IsDigit(c)
    ensures c !in Decimal(n)
  {
    DecimalNumber(n);
  }

  function Power10(k: nat): nat {
    if k == 0 then 1 else 10 * Power10(k - 1)
  }

  /** The first digit is the most significant one. */
  lemma {:induction false} FirstDigit(digits: Text)
    requires AllDigits(digits) && digits != []
    ensures Number(digits) == (digits[0] as int - 48) * Power10(|digits| - 1) + Number(digits[1..])
    decreases |digits|
  {
    var n := |digits| - 1;
    if n > 0 {
      var more := digits[1..];
      FirstDigit(digits[..n]);
      assert more[..n - 1] == digits[..n][1..] && more[n - 1] == digits[n] && digits[..n][0] == digits[0];
      TimesTen(digits[0] as int - 48, Power10(n - 1));
    }
  }

  lemma TimesTen(d: int, p: nat)
    ensures d * p * 10 == d * (10 * p)
  {}

  /** The number that digits after a sign stand for. */
  function Signed(sign: Text, digits: Text): Option<nat>
    requires AllDigits(digits)
  {
    if digits == [] || Number(digits) >= 0x1_0000_0000_0000_0000 then None
    else if sign == [45] && Number(digits) > 0 then Some(0x1_0000_0000_0000_0000 - Number(digits))
    else Some(Number(digits))
  }

  /** What is parsed of a text: blanks are passed over, then there may be a sign, then digits, and whatever follows
      them is ignored. */
  lemma {:induction false} ParsesPrefix(blanks: Text, sign: Text, digits: Text, junk: Text)
    requires forall k | 0 <= k < |blanks| :: 9 <= blanks[k] <= 13 || blanks[k] == 32
    requires sign in {[], [43], [45]}
    requires AllDigits(digits) && (junk == [] || !(48 <= junk[0] <= 57))
    requires sign == [] && digits == [] && junk != [] ==> junk[0] !in {43, 45, 32} && !(9 <= junk[0] <= 13)
    ensures ParseNumber(blanks + (sign + (digits + junk))) == Signed(sign, digits)
    decreases |blanks|
  {
    hide Signed;
    var s := sign + (digits + junk);
    if blanks == [] {
      assert blanks + s == s;
      if sign == [] {
        assert s == digits + junk;
        ParsesUnsigned(digits, junk);
      } else {
        ParsesSigned(sign, digits, junk);
      }
    } else {
      assert (blanks + s)[1..] == blanks[1..] + s;
      ParsesPrefix(blanks[1..], sign, digits, junk);
    }
  }

  lemma ParsesSigned(sign: Text, digits: Text, junk: Text)
    requires sign in {[43], [45]} && AllDigits(digits) && (junk == [] || !IsDigit(junk[0]))
    ensures ParseNumber(sign + (digits + junk)) == Signed(sign, digits)
  {
    hide Number, LeadingDigits, ParseNumber;
    var t := digits + junk;
    var s := sign + t;
    assert s[0] == sign[0] && s[1..] == t;
    DigitsLead(digits, junk);
    assert t[..|digits|] == digits;
    ParseDigits(s, t, |digits|);
  }

  /** Without blanks in front. */
  lemma ParseDigits(s: Text, t: Text, k: nat)
    requires s != [] && !IsSpace(s[0]) && t == (if s[0] in {PLUS, MINUS} then s[1..] else s) && k == LeadingDigits(t)
    ensures ParseNumber(s)
         == if k == 0 || Number(t[..k]) >= ULONG_COUNT then None
            else if s[0] == MINUS then Some((ULONG_COUNT - Number(t[..k])) % ULONG_COUNT) else Some(Number(t[..k]))
  {
    hide Number, LeadingDigits;
  }

  lemma ParsesUnsigned(digits: Text, junk: Text)
    requires AllDigits(digits) && (junk == [] || !IsDigit(junk[0]))
    requires digits == [] && junk != [] ==> junk[0] !in {43, 45} && !IsSpace(junk[0])
    ensures ParseNumber(digits + junk) == Signed([], digits)
  {
    hide Number, LeadingDigits, ParseNumber;
    var t := digits + junk;
    assert digits != [] ==> t[0] == digits[0];
    assert digits == [] ==> t == junk;
    DigitsLead(digits, junk);
    assert t[..|digits|] == digits;
    if t == [] {
      NothingToParse();
    } else {
      ParseDigits(t, t, |digits|);
    }
  }

  lemma NothingToParse()
    ensures ParseNumber([]) == None
  {}

  lemma {:induction false} DigitsLead(digits: Text, junk: Text)
    requires AllDigits(digits) && (junk == [] || !IsDigit(junk[0]))
    ensures LeadingDigits(digits + junk) == |digits|
  {
    if digits == [] {
      assert digits + junk == junk;
    } else {
      assert (digits + junk)[1..] == digits[1..] + junk;
      DigitsLead(digits[1..], junk);
    }
  }

  // ----- Addresses as text

  function Host(a: Byte, b: Byte, c: Byte, d: Byte): Text {
    Decimal(a) + [DOT] + (Decimal(b) + [DOT] + (Decimal(c) + [DOT] + Decimal(d)))
  }

  function FullAddress(address: Address): Text {
    match address
    case IPv4(a, b, c, d, port) => Host(a, b, c, d) + [COLON] + Decimal(port)
    case GNS(name, provider) => name + [AT] + provider
  }

  /** How addresses look: 127.0.0.1:2000, and a name in front of its provider. */
  lemma AddressTexts()
    ensures FullAddress(IPv4(127, 0, 0, 1, 2000)) == [49, 50, 55, 46, 48, 46, 48, 46, 49, 58, 50, 48, 48, 48]
    ensures FullAddress(GNS([110], [112])) == [110, 64, 112]
  {
    hide Decimal;
    DecimalDigits(10, 1, 0);
    DecimalDigits(12, 1, 2);
    DecimalDigits(127, 12, 7);
    DecimalDigits(20, 2, 0);
    DecimalDigits(200, 20, 0);
    DecimalDigits(2000, 200, 0);
    assert Host(127, 0, 0, 1) == [49, 50, 55, 46, 48, 46, 48, 46, 49];
  }

  lemma DecimalDigits(n: nat, tens: nat, ones: nat)
    requires n == 10 * tens + ones && tens > 0 && ones < 10
    ensures Decimal(n) == Decimal(tens) + [48 + ones]
    ensures tens < 10 ==> Decimal(tens) == [48 + tens]
    ensures Decimal(ones) == [48 + ones]
  {}

  /** Addresses are compared by kind and text. */
  predicate Same(x: Address, y: Address) {
    x.IPv4? == y.IPv4? && FullAddress(x) == FullAddress(y)
  }

  /** The next `k` numbers of a text, each of them up to a dot. */
  function Octets(s: Text, k: nat): Option<seq<Byte>>
    decreases k
  {
    if k == 0 then Some([])
    else
      var e := Find(s, DOT);
      match ParseNumber(s[..e])
      case None => None
      case Some(n) =>
        match Octets(if e < |s| then s[e + 1..] else [], k - 1)
        case None => None
        case Some(more) => Some([n % 256] + more)
  }

  lemma {:induction false} OctetsLength(s: Text, k: nat)
    ensures Octets(s, k).Some? ==> |Octets(s, k).value| == k
    decreases k
  {
    if k > 0 {
      var e := Find(s, DOT);
      OctetsLength(if e < |s| then s[e + 1..] else [], k - 1);
    }
  }

  function IPv4Of(text: Text): Option<Address> {
    var at := Find(text, COLON);
    if at == |text| then None
    else
      match Octets(text[..at] + [DOT], 4)
      case None => None
      case Some(octets) =>
        OctetsLength(text[..at] + [DOT], 4);
        match ParseNumber(text[at + 1..])
        case None => None
        case Some(n) => Some(IPv4(octets[0], octets[1], octets[2], octets[3], n % 65536))
  }

  method ParseOctets(s: Text) returns (r: Option<seq<Byte>>)
    requires s != [] && s[|s| - 1] == DOT
    ensures r == Octets(s, 4)
  {
    hide Octets, ParseNumber, Find, Before;
    var octets: seq<Byte> := [];
    var start: nat := 0;
    assert s[0..] == s;
    BeforeEnds(octets, Octets(s, 4));
    for i := 0 to 4
      invariant start <= |s| && |octets| == i
      invariant Octets(s, 4) == Before<Byte>(octets, Octets(s[start..], 4 - i))
    {
      OctetsNext(s, start, 4 - i);
      var e := start + Find(s[start..], DOT);
      var n := ParseNumber(s[start..e]);
      if n.None? {
        BeforeEnds(octets, None);
        return None;
      }
      BeforeBefore<Byte>(octets, [n.value % 256], Octets(s[e + 1..], 4 - i - 1));
      octets := octets + [n.value % 256];
      start := e + 1;
    }
    NoOctets(s[start..]);
    BeforeEnds(octets, None);
    r := Some(octets);
  }

  lemma OctetsNext(s: Text, start: nat, k: nat)
    requires s != [] && s[|s| - 1] == DOT && start <= |s| && k > 0
    ensures var e := start + Find(s[start..], DOT);
      match ParseNumber(s[start..e])
      case None => Octets(s[start..], k).None?
      case Some(n) => e < |s| && Octets(s[start..], k) == Before<Byte>([n % 256], Octets(s[e + 1..], k - 1))
  {
    hide Find;
    var e := start + Find(s[start..], DOT);
    assert s[start..][..e - start] == s[start..e];
    if start < |s| {
      DotAhead(s, start);
      assert s[start..][e - start + 1..] == s[e + 1..];
    } else {
      assert s[start..e] == [];
    }
  }

  lemma DotAhead(s: Text, start: nat)
    requires start < |s| && s[|s| - 1] == DOT
    ensures Find(s[start..], DOT) < |s| - start
  {
    Finds(s[start..], DOT);
    assert s[|s| - 1] == s[start..][|s| - 1 - start];
    FindEnd(s[start..], DOT);
  }

  /** Parses an address of the form a.b.c.d:port. */
  method ParseIPv4(text: Text) returns (r: Option<Address>)
    ensures r == IPv4Of(text)
  {
    var at := Find(text, COLON);
    if at == |text| {
      return None;
    }
    var octets := ParseOctets(text[..at] + [DOT]);
    if octets.None? {
      return None;
    }
    OctetsLength(text[..at] + [DOT], 4);
    var port := ParseNumber(text[at + 1..]);
    if port.None? {
      return None;
    }
    r := Some(IPv4(octets.value[0], octets.value[1], octets.value[2], octets.value[3], port.value % 65536));
  }

  lemma OctetParses(n: Byte, rest: Text, k: nat)
    requires k > 0
    ensures Octets(Decimal(n) + [DOT] + rest, k) == Before<Byte>([n], Octets(rest, k - 1))
  {
    hide Decimal, ParseNumber, Octets;
    DecimalHasNo(n, DOT);
    DecimalParses(n);
    OctetFirst(Decimal(n), rest, k);
  }

  /** The four numbers of an address with a dot after each of them. */
  function Dotted(a: Byte, rest: Text): Text {
    Decimal(a) + [DOT] + rest
  }

  lemma HostIsDotted(a: Byte, b: Byte, c: Byte, d: Byte)
    ensures Host(a, b, c, d) + [DOT] == Dotted(a, Dotted(b, Dotted(c, Dotted(d, []))))
  {}

  lemma HostParses(a: Byte, b: Byte, c: Byte, d: Byte)
    ensures Octets(Host(a, b, c, d) + [DOT], 4) == Some([a, b, c, d])
  {
    hide Octets, Host, Decimal;
    HostIsDotted(a, b, c, d);
    NoOctets([]);
    OctetParses(d, [], 1);
    OctetParses(c, Dotted(d, []), 2);
    OctetParses(b, Dotted(c, Dotted(d, [])), 3);
    OctetParses(a, Dotted(b, Dotted(c, Dotted(d, []))), 4);
    assert [a] + ([b] + ([c] + ([d] + []))) == [a, b, c, d];
  }

  lemma NoOctets(s: Text)
    ensures Octets(s, 0) == Some([])
  {}

  lemma HostHasNoColon(a: Byte, b: Byte, c: Byte, d: Byte)
    ensures COLON !in Host(a, b, c, d)
  {
    DecimalHasNo(a, COLON);
    DecimalHasNo(b, COLON);
    DecimalHasNo(c, COLON);
    DecimalHasNo(d, COLON);
  }

  /** An IPv4 address is parsed back from its text. */
  lemma IPv4ReadsBack(address: Address)
    requires address.IPv4?
    ensures IPv4Of(FullAddress(address)) == Some(address)
  {
    hide Octets, Host, Decimal, Find, ParseNumber;
    var host := Host(address.a, address.b, address.c, address.d);
    var text := host + [COLON] + Decimal(address.port);
    HostParses(address.a, address.b, address.c, address.d);
    HostHasNoColon(address.a, address.b, address.c, address.d);
    FindIs(host, COLON, Decimal(address.port));
    DecimalParses(address.port);
    assert text[..|host|] == host && text[|host| + 1..] == Decimal(address.port);
  }

  /** Comparing the texts of IPv4 addresses compares the addresses. */
  lemma SameIPv4(x: Address, y: Address)
    requires x.IPv4? && Same(x, y)
    ensures x == y
  {
    IPv4ReadsBack(x);
    IPv4ReadsBack(y);
  }

  /** The address that four numbers and a port make up, whatever follows the fourth number: each of the numbers modulo
      256, the port modulo 65536, and none at all if one of them cannot be parsed. */
  lemma IPv4Parses(o1: Text, o2: Text, o3: Text, o4: Text, more: Text, host: Text, port: Text)
    requires 46 !in o1 && 46 !in o2 && 46 !in o3 && 46 !in o4 && 58 !in host
    requires host + [46] == o1 + [46] + (o2 + [46] + (o3 + [46] + (o4 + [46] + more)))
    ensures var (n1, n2, n3, n4) := (ParseNumber(o1), ParseNumber(o2), ParseNumber(o3), ParseNumber(o4));
      var p := ParseNumber(port);
      IPv4Of(host + [58] + port)
      == if n1 == None || n2 == None || n3 == None || n4 == None || p == None then None
         else Some(IPv4(n1.value % 256, n2.value % 256, n3.value % 256, n4.value % 256, p.value % 65536))
  {
    hide Octets, Find, ParseNumber, IPv4Of;
    FourOctets(o1, o2, o3, o4, more);
    OctetsAndPort(host, port);
  }

  lemma FourOctets(o1: Text, o2: Text, o3: Text, o4: Text, tail: Text)
    requires DOT !in o1 && DOT !in o2 && DOT !in o3 && DOT !in o4
    ensures var (n1, n2, n3, n4) := (ParseNumber(o1), ParseNumber(o2), ParseNumber(o3), ParseNumber(o4));
      Octets(o1 + [DOT] + (o2 + [DOT] + (o3 + [DOT] + (o4 + [DOT] + tail))), 4)
      == if n1 == None || n2 == None || n3 == None || n4 == None then None
         else Some([n1.value % 256, n2.value % 256, n3.value % 256, n4.value % 256])
  {
    hide Octets, ParseNumber;
    var s4 := o4 + [DOT] + tail;
    var s3 := o3 + [DOT] + s4;
    var s2 := o2 + [DOT] + s3;
    OctetFirst(o1, s2, 4);
    OctetFirst(o2, s3, 3);
    OctetFirst(o3, s4, 2);
    OctetFirst(o4, tail, 1);
    NoOctets(tail);
    var (n1, n2, n3, n4) := (ParseNumber(o1), ParseNumber(o2), ParseNumber(o3), ParseNumber(o4));
    if n1.Some? && n2.Some? && n3.Some? && n4.Some? {
      var (a, b, c, d) := (n1.value % 256, n2.value % 256, n3.value % 256, n4.value % 256);
      assert Octets(s4, 1) == Some([d] + []) && [d] + [] == [d];
      assert Octets(s3, 2) == Some([c] + [d]) && Octets(s2, 3) == Some([b] + ([c] + [d]));
      assert [a] + ([b] + ([c] + [d])) == [a, b, c, d];
    }
  }

  lemma OctetsAndPort(host: Text, port: Text)
    requires COLON !in host
    ensures var octets := Octets(host + [DOT], 4); octets.Some? ==> |octets.value| == 4
    ensures var octets := Octets(host + [DOT], 4);
      IPv4Of(host + [COLON] + port)
      == if octets == None || ParseNumber(port) == None then None
         else Some(IPv4(octets.value[0], octets.value[1], octets.value[2], octets.value[3],
                        ParseNumber(port).value % 65536))
  {
    hide Octets, Find, ParseNumber;
    var text := host + [COLON] + port;
    FindIs(host, COLON, port);
    OctetsLength(host + [DOT], 4);
    assert text[..|host|] == host && text[|host| + 1..] == port;
  }

  lemma OctetFirst(o: Text, rest: Text, k: nat)
    requires DOT !in o && k > 0
    ensures Octets(o + [DOT] + rest, k)
         == match ParseNumber(o)
            case None => None
            case Some(n) => Before<Byte>([n % 256], Octets(rest, k - 1))
  {
    hide ParseNumber;
    var s := o + [DOT] + rest;
    FindIs(o, DOT, rest);
    assert s[..|o|] == o && s[|o| + 1..] == rest;
  }

  /** The address of a text with the name up to the first separator. */
  function NameAtProvider(text: Text): Option<Address> {
    var at := Find(text, AT);
    if at == |text| then None else Some(GNS(text[..at], text[at + 1..]))
  }

  /** Parses an address of the form name@provider or name@provider:port, without keeping the port. */
  function GNSOf(text: Text): Option<Address> {
    var colon := Find(text, COLON);
    if colon < |text| && ParseNumber(text[colon + 1..]).None? then None
    else NameAtProvider(text[..colon])
  }

  lemma NameReadsBack(text: Text)
    ensures NameAtProvider(text).Some? <==> AT in text
    ensures NameAtProvider(text).Some? ==>
      NameAtProvider(text).value.GNS? && FullAddress(NameAtProvider(text).value) == text
  {
    var at := Find(text, AT);
    FindEnd(text, AT);
    Finds(text, AT);
    if at < |text| {
      assert text == text[..at] + [text[at]] + text[at + 1..];
    }
  }

  /** A name at a provider is parsed back from its text exactly when the text has no colon and the name no
      separator. */
  lemma GNSReadsBack(address: Address)
    requires address.GNS?
    ensures GNSOf(FullAddress(address)) == Some(address) <==> COLON !in FullAddress(address) && AT !in address.name
  {
    var text := FullAddress(address);
    var colon := Find(text, COLON);
    FindEnd(text, COLON);
    if COLON !in text {
      assert text[..colon] == text;
      var at := Find(text, AT);
      Finds(text, AT);
      if AT !in address.name {
        FindIs(address.name, AT, address.provider);
        assert text[..at] == address.name && text[at + 1..] == address.provider;
      }
    } else {
      NameReadsBack(text[..colon]);
    }
  }

  /** A port behind a name at a provider must be a number, and is not kept. */
  lemma GNSParses(name: Text, provider: Text, port: Text)
    requires 58 !in name && 58 !in provider && 64 !in name
    ensures GNSOf(name + [64] + provider) == Some(GNS(name, provider))
    ensures GNSOf(name + [64] + provider + [58] + port)
         == if ParseNumber(port) == None then None else Some(GNS(name, provider))
  {
    hide ParseNumber, Find;
    var text := name + [AT] + provider;
    GNSReadsBack(GNS(name, provider));
    FindIs(text, COLON, port);
    var all := text + [COLON] + port;
    assert all[..|text|] == text && all[|text| + 1..] == port;
    FindEnd(text, COLON);
    assert text[..|text|] == text;
  }

  lemma FindEnd(s: Text, c: Byte)
    ensures Find(s, c) == |s| <==> c !in s
  {
    Finds(s, c);
    assert s[..|s|] == s;
  }
}
