/** Bytes, texts of bytes, and buffers. */
module ByteStrings {

  type Byte = b: int | 0 <= b < 256

  type Bytes = seq<Byte>

  type Text = Bytes

  /** What the C locale takes for a blank. */
  predicate IsSpace(c: Byte) {
    9 <= c <= 13 || c == 32
  }

  function Zeroes(k: nat): (r: Bytes)
    ensures |r| == k && forall i | 0 <= i < k :: r[i] == 0
  {
    if k == 0 then [] else Zeroes(k - 1) + [0]
  }

  /** Copies bytes into a buffer and leaves the rest of it alone. */
  method CopyTo(bytes: array<Byte>, offset: nat, part: Bytes)
    requires offset + |part| <= bytes.Length
    modifies bytes
    ensures bytes[..] == old(bytes[..offset]) + part + old(bytes[offset + |part|..])
    ensures bytes[..offset + |part|] == old(bytes[..offset]) + part
  {
    for i := 0 to |part|
      invariant bytes[..offset] == old(bytes[..offset])
      invariant bytes[offset..offset + i] == part[..i]
      invariant bytes[offset + i..] == old(bytes[offset + i..])
    {
      bytes[offset + i] := part[i];
    }
    assert part[..|part|] == part;
    assert bytes[..offset + |part|] == bytes[..offset] + bytes[offset..offset + |part|];
    assert bytes[..] == bytes[..offset + |part|] + bytes[offset + |part|..];
  }
}
