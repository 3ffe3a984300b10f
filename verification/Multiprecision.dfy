/** Amounts and balances as bytes, the most significant byte first. */
module Multiprecision {

  import opened Amounts
  import opened ByteStrings
  import TrustLines

  const AMOUNT_BYTES_COUNT: nat := 32

  /** The number whose magnitude bytes are imported from `bytes`. */
  function Value(bytes: Bytes): nat {
    if bytes == [] then 0 else Value(bytes[..|bytes| - 1]) * 256 + bytes[|bytes| - 1]
  }

  /** The magnitude bytes that are exported for `n`: as few as possible, but one for zero. */
  function Exported(n: nat): Bytes {
    if n < 256 then [n] else Exported(n / 256) + [n % 256]
  }

  function Power(k: nat): (r: nat)
    ensures r > 0
  {
    if k == 0 then 1 else Power(k - 1) * 256
  }

  lemma PowerOfCount()
    ensures Power(AMOUNT_BYTES_COUNT) == WIDTH
  {
    assert Power(8) == 0x1_0000_0000_0000_0000;
    assert Power(16) == 0x1_0000_0000_0000_0000_0000_0000_0000_0000;
    assert Power(24) == 0x1_0000_0000_0000_0000_0000_0000_0000_0000_0000_0000_0000_0000;
  }

  lemma {:induction false} ValueBound(bytes: Bytes)
    ensures Value(bytes) < Power(|bytes|)
  {
    if bytes != [] {
      ValueBound(bytes[..|bytes| - 1]);
    }
  }

  lemma {:induction false} ExportedValue(n: nat)
    ensures Value(Exported(n)) == n
  {
    if n < 256 {
      assert [n][..0] == [];
    } else {
      ExportedValue(n / 256);
      assert Exported(n)[..|Exported(n)| - 1] == Exported(n / 256);
    }
  }

  lemma {:induction false} ExportedLength(n: nat, k: nat)
    requires k > 0 && n < Power(k)
    ensures |Exported(n)| <= k
    decreases k
  {
    if n >= 256 {
      assert Power(k - 1) > 1 && k - 1 != 0;
      ExportedLength(n / 256, k - 1);
    }
  }

  lemma {:induction false} LeadingZeroes(k: nat, bytes: Bytes)
    ensures Value(Zeroes(k) + bytes) == Value(bytes)
    decreases |bytes|, k
  {
    var s := Zeroes(k) + bytes;
    if bytes != [] {
      assert s[..|s| - 1] == Zeroes(k) + bytes[..|bytes| - 1];
      LeadingZeroes(k, bytes[..|bytes| - 1]);
    } else if k > 0 {
      assert s[..|s| - 1] == Zeroes(k - 1) + [];
      LeadingZeroes(k - 1, []);
    }
  }

  /** As many bytes hold a number in one way only. */
  lemma {:induction false} ValueInjective(a: Bytes, b: Bytes)
    requires |a| == |b| && Value(a) == Value(b)
    ensures a == b
  {
    if a != [] {
      var n := |a| - 1;
      ValueInjective(a[..n], b[..n]);
      assert a == a[..n] + [a[n]] && b == b[..n] + [b[n]];
    }
  }

  /** The first byte is the most significant one. */
  lemma {:induction false} FirstByte(b: Byte, rest: Bytes)
    ensures Value([b] + rest) == b * Power(|rest|) + Value(rest)
    decreases |rest|
  {
    var s := [b] + rest;
    if rest == [] {
      assert s[..0] == [];
    } else {
      var n := |rest| - 1;
      assert s[..|s| - 1] == [b] + rest[..n];
      FirstByte(b, rest[..n]);
      var p := Power(n);
      assert (b * p) * 256 == b * (p * 256);
    }
  }

  // ----- Amounts

  /** An amount is read from its bytes. */
  method BytesToAmount(bytes: Bytes) returns (amount: Amount)
    requires |bytes| >= AMOUNT_BYTES_COUNT
    ensures amount == Value(bytes[..AMOUNT_BYTES_COUNT])
  {
    var buffer: Bytes := [];
    for i := 0 to AMOUNT_BYTES_COUNT
      invariant buffer == bytes[..i]
    {
      buffer := buffer + [bytes[i]];
    }
    ValueBound(buffer);
    PowerOfCount();
    amount := Value(buffer);
  }

  /** Writes an amount as the only thirty-two bytes from which it is read. */
  method AmountToBytes(amount: Amount) returns (bytes: Bytes)
    ensures |bytes| == AMOUNT_BYTES_COUNT && Value(bytes) == amount
    ensures forall other: Bytes | |other| == AMOUNT_BYTES_COUNT && Value(other) == amount :: bytes == other
  {
    bytes := Magnitude(amount);
    forall other: Bytes | |other| == AMOUNT_BYTES_COUNT && Value(other) == amount
      ensures bytes == other
    {
      ValueInjective(bytes, other);
    }
  }

  method Magnitude(amount: Amount) returns (bytes: Bytes)
    ensures |bytes| == AMOUNT_BYTES_COUNT && Value(bytes) == amount
  {
    var exported := Exported(amount);
    PowerOfCount();
    ExportedLength(amount, AMOUNT_BYTES_COUNT);
    var unused := AMOUNT_BYTES_COUNT - |exported|;
    bytes := [];
    for i := 0 to unused
      invariant bytes == Zeroes(i)
    {
      bytes := bytes + [0];
    }
    for i := 0 to |exported|
      invariant bytes == Zeroes(unused) + exported[..i]
    {
      bytes := bytes + [exported[i]];
    }
    assert exported[..|exported|] == exported;
    LeadingZeroes(unused, exported);
    ExportedValue(amount);
  }

  // ----- Balances

  /** The balance that is read from a sign byte and thirty-two bytes of magnitude. */
  function BalanceOf(bytes: Bytes): int
    requires |bytes| == AMOUNT_BYTES_COUNT + 1
  {
    if bytes[0] != 0 then 0 - Value(bytes[1..]) else Value(bytes[1..])
  }

  method BytesToBalance(bytes: Bytes) returns (balance: TrustLines.Balance)
    requires |bytes| >= AMOUNT_BYTES_COUNT + 1
    ensures balance == BalanceOf(bytes[..AMOUNT_BYTES_COUNT + 1])
    ensures balance == if bytes[0] == 0 then Value(bytes[1..33]) else 0 - Value(bytes[1..33])
  {
    var buffer: Bytes := [];
    for i := 1 to AMOUNT_BYTES_COUNT + 1
      invariant buffer == bytes[1..i]
    {
      buffer := buffer + [bytes[i]];
    }
    assert buffer == bytes[..AMOUNT_BYTES_COUNT + 1][1..];
    ValueBound(buffer);
    PowerOfCount();
    balance := Value(buffer);
    if balance > 0 {
      var sign := bytes[0];
      if sign != 0 {
        balance := balance * -1;
      }
    }
  }

  /** The way a balance is written: the sign byte is zero or one, and one for negative balances only. */
  predicate Canonical(bytes: Bytes) {
    && |bytes| == AMOUNT_BYTES_COUNT + 1
    && (bytes[0] == 0 || (bytes[0] == 1 && Value(bytes[1..]) > 0))
  }

  method BalanceToBytes(balance: TrustLines.Balance) returns (bytes: Bytes)
    ensures Canonical(bytes) && BalanceOf(bytes) == balance
    ensures |bytes| == 33 && bytes[0] == (if balance < 0 then 1 else 0)
    ensures Value(bytes[1..]) == if balance < 0 then 0 - balance else balance
  {
    bytes := Magnitude(TrustLines.Abs(balance));
    var magnitude := bytes;
    var sign := if balance < 0 then 1 else 0;
    bytes := [sign] + bytes;
    assert bytes[1..] == magnitude;
  }

  /** Balances have one written form each, so reading and writing again changes exactly the other forms. */
  lemma CanonicalIsUnique(a: Bytes, b: Bytes)
    requires Canonical(a) && |b| == AMOUNT_BYTES_COUNT + 1 && BalanceOf(a) == BalanceOf(b)
    ensures a == b <==> Canonical(b)
  {
    if Canonical(b) {
      ValueInjective(a[1..], b[1..]);
      assert a == [a[0]] + a[1..] && b == [b[0]] + b[1..];
    }
  }

  /** Reads a balance and writes it back: the same bytes, unless the sign byte is another one than zero and
      one, or zero is negative. */
  method ReadAndWrite(bytes: Bytes) returns (again: Bytes)
    requires |bytes| == AMOUNT_BYTES_COUNT + 1
    ensures again == bytes <==> bytes[0] == 0 || (bytes[0] == 1 && exists i :: 1 <= i < |bytes| && bytes[i] != 0)
  {
    var balance := BytesToBalance(bytes);
    assert bytes[..AMOUNT_BYTES_COUNT + 1] == bytes;
    again := BalanceToBytes(balance);
    CanonicalIsUnique(again, bytes);
    ZeroValue(bytes[1..]);
    assert forall i :: 1 <= i < |bytes| ==> bytes[i] == bytes[1..][i - 1];
    assert (exists i :: 0 <= i < |bytes[1..]| && bytes[1..][i] != 0) ==>
        exists i :: 1 <= i < |bytes| && bytes[i] != 0 by {
      if i :| 0 <= i < |bytes[1..]| && bytes[1..][i] != 0 {
        assert bytes[i + 1] != 0;
      }
    }
  }

  lemma {:induction false} ZeroValue(bytes: Bytes)
    ensures Value(bytes) > 0 <==> exists i :: 0 <= i < |bytes| && bytes[i] != 0
  {
    if bytes != [] {
      var n := |bytes| - 1;
      ZeroValue(bytes[..n]);
      assert forall i :: 0 <= i < n ==> bytes[i] == bytes[..n][i];
      if bytes[n] == 0 && Value(bytes) == 0 {
        assert forall i :: 0 <= i < |bytes| ==> bytes[i] == 0;
      }
    }
  }
}
