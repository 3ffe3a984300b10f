/** Lamport one-time signatures over an uninterpreted 32-byte hash. */
module Lamport {
  import opened ByteStrings

  type Hash = Bytes -> Bytes

  /** A key holds 512 numbers of 32 bytes, two for every bit of a hash; a signature holds one for every bit. */
  const NUMBER_SIZE: int := 32
  const NUMBERS: int := 512
  const HASH_BITS: int := 256
  const KEY_SIZE: int := 16384
  const SIGNATURE_SIZE: int := 8192

  ghost predicate IsHash(hash: Hash) {
    forall x :: |hash(x)| == NUMBER_SIZE
  }

  /** Bit `b` of a byte, the lowest first. */
  function Bit(x: nat, b: nat): bool {
    if b == 0 then x % 2 == 1 else Bit(x / 2, b - 1)
  }

  function HashBit(messageHash: Bytes, k: nat): bool
    requires |messageHash| == NUMBER_SIZE && k < HASH_BITS
  {
    Bit(messageHash[k / 8], k % 8)
  }

  /** The k-th number of a buffer. */
  function Number(buffer: Bytes, k: nat): Bytes
    requires NUMBER_SIZE * (k + 1) <= |buffer|
  {
    buffer[NUMBER_SIZE * k..NUMBER_SIZE * k + NUMBER_SIZE]
  }

  /** The number of the k-th pair that a hash selects: the first for a set bit, the second for a clear one. */
  function Choice(messageHash: Bytes, k: nat): (c: nat)
    requires |messageHash| == NUMBER_SIZE && k < HASH_BITS
    ensures c < NUMBERS
  {
    if HashBit(messageHash, k) then 2 * k else 2 * k + 1
  }

  /** `signature` holds the first `count` numbers that the hash selects from `key`. */
  ghost predicate Selects(key: Bytes, signature: Bytes, messageHash: Bytes, count: nat)
    requires |key| == KEY_SIZE && |signature| == SIGNATURE_SIZE && |messageHash| == NUMBER_SIZE && count <= HASH_BITS
  {
    forall k: nat | k < count :: Number(signature, k) == Number(key, Choice(messageHash, k))
  }

  /** The public key is the private one with the first `count` numbers hashed. */
  ghost predicate Derives(hash: Hash, privateKey: Bytes, publicKey: Bytes, count: nat)
    requires |privateKey| == KEY_SIZE && |publicKey| == KEY_SIZE && count <= NUMBERS
  {
    forall k: nat | k < count :: Number(publicKey, k) == hash(Number(privateKey, k))
  }

  /** A signature is good for a message: it is not empty, and each number hashes to the one that the message
      selects from the public key. */
  ghost predicate Verifies(hash: Hash, publicKey: Bytes, signature: Bytes, message: Bytes)
    requires IsHash(hash) && |publicKey| == KEY_SIZE && |signature| == SIGNATURE_SIZE
  {
    && message != []
    && forall k: nat | k < HASH_BITS :: hash(Number(signature, k)) == Number(publicKey, Choice(hash(message), k))
  }

  // ----- What that means for the bytes

  function Pow2(n: nat): (p: nat)
    ensures p > 0
  {
    if n == 0 then 1 else 2 * Pow2(n - 1)
  }

  /** The bytes that a bit of a hash selects from a key: of the 64 bytes for that bit the first 32 if it is set, and
      the others if it is clear. */
  function SelectedBytes(key: Bytes, messageHash: Bytes, i: nat, b: nat): Bytes
    requires |key| == 16384 && |messageHash| == 32 && i < 32 && b < 8
  {
    var pair := 64 * (8 * i + b);
    if messageHash[i] / Pow2(b) % 2 == 1 then key[pair..pair + 32] else key[pair + 32..pair + 64]
  }

  /** The 32 bytes of a signature for one bit of a hash. */
  function SignatureBytes(signature: Bytes, i: nat, b: nat): Bytes
    requires |signature| == 8192 && i < 32 && b < 8
  {
    signature[32 * (8 * i + b)..32 * (8 * i + b) + 32]
  }

  lemma HalfThenDivide(x: nat, p: nat)
    requires p > 0
    ensures x / (2 * p) == x / 2 / p
  {
    var q, r := x / 2 / p, x / 2 % p;
    assert x / 2 == q * p + r;
    assert x == q * (2 * p) + (2 * r + x % 2);
    Quotient(x, 2 * p, q, 2 * r + x % 2);
  }

  lemma Quotient(x: nat, d: nat, q: nat, r: nat)
    requires d > 0 && r < d && x == q * d + r
    ensures x / d == q
  {
    var k := x / d - q;
    assert x == x / d * d + x % d;
    assert k * d == r - x % d;
    AtLeastOnce(k, d);
  }

  lemma AtLeastOnce(k: int, d: nat)
    ensures k > 0 ==> k * d >= d
    ensures k < 0 ==> k * d <= 0 - d
  {}

  /** The bits of a number are its binary digits. */
  lemma {:induction false} BitIsDigit(x: nat, b: nat)
    ensures Bit(x, b) <==> x / Pow2(b) % 2 == 1
  {
    if b > 0 {
      BitIsDigit(x / 2, b - 1);
      HalfThenDivide(x, Pow2(b - 1));
    }
  }

  lemma ChoiceIsSelected(key: Bytes, messageHash: Bytes, i: nat, b: nat)
    requires |key| == KEY_SIZE && |messageHash| == NUMBER_SIZE && i < 32 && b < 8
    ensures Number(key, Choice(messageHash, 8 * i + b)) == SelectedBytes(key, messageHash, i, b)
  {
    BitAt(messageHash, i, b);
    BitIsDigit(messageHash[i], b);
  }

  /** The number for every bit is the selected one. */
  lemma SelectsBytes(key: Bytes, signature: Bytes, messageHash: Bytes)
    requires |key| == KEY_SIZE && |signature| == SIGNATURE_SIZE && |messageHash| == NUMBER_SIZE
    requires Selects(key, signature, messageHash, HASH_BITS)
    ensures forall i: nat, b: nat | i < 32 && b < 8 ::
              SignatureBytes(signature, i, b) == SelectedBytes(key, messageHash, i, b)
  {
    hide Choice, SelectedBytes;
    forall i: nat, b: nat | i < 32 && b < 8
      ensures SignatureBytes(signature, i, b) == SelectedBytes(key, messageHash, i, b)
    {
      ChoiceIsSelected(key, messageHash, i, b);
      assert SignatureBytes(signature, i, b) == Number(signature, 8 * i + b);
    }
  }

  /** A signature is good if and only if the message is not empty and the bytes for every bit of its hash are those
      whose hash is selected from the public key. */
  lemma VerifiesBytes(hash: Hash, publicKey: Bytes, signature: Bytes, message: Bytes)
    requires IsHash(hash) && |publicKey| == KEY_SIZE && |signature| == SIGNATURE_SIZE
    ensures Verifies(hash, publicKey, signature, message) <==>
      message != [] && forall i: nat, b: nat | i < 32 && b < 8 ::
        hash(SignatureBytes(signature, i, b)) == SelectedBytes(publicKey, hash(message), i, b)
  {
    hide Choice, SelectedBytes;
    var m := hash(message);
    forall i: nat, b: nat | i < 32 && b < 8
      ensures Number(publicKey, Choice(m, 8 * i + b)) == SelectedBytes(publicKey, m, i, b)
      ensures SignatureBytes(signature, i, b) == Number(signature, 8 * i + b)
    {
      ChoiceIsSelected(publicKey, m, i, b);
    }
    forall k: nat | k < HASH_BITS
      ensures Number(publicKey, Choice(m, k)) == SelectedBytes(publicKey, m, k / 8, k % 8)
      ensures SignatureBytes(signature, k / 8, k % 8) == Number(signature, k)
    {
      assert 8 * (k / 8) + k % 8 == k;
    }
  }

  // ----- Buffers

  /** Writing one number leaves the others alone. */
  lemma NumberWritten(before: Bytes, number: Bytes, after: Bytes, k: nat)
    requires |number| == NUMBER_SIZE && NUMBER_SIZE * (k + 1) <= |before|
    requires after == before[..NUMBER_SIZE * k] + number + before[NUMBER_SIZE * k + NUMBER_SIZE..]
    ensures |after| == |before| && Number(after, k) == number
    ensures forall j: nat | j < k :: Number(after, j) == Number(before, j)
  {
    forall j: nat | j < k ensures Number(after, j) == Number(before, j) {
      assert NUMBER_SIZE * (j + 1) <= NUMBER_SIZE * k;
    }
  }

  /** Copies one number of a key to its place in a signature. */
  method CopyNumber(key: array<Byte>, source: nat, signature: array<Byte>, target: nat, ghost c: nat, ghost k: nat)
    requires key != signature && NUMBER_SIZE * (c + 1) <= key.Length && NUMBER_SIZE * (k + 1) <= signature.Length
    requires source == NUMBER_SIZE * c && target == NUMBER_SIZE * k
    modifies signature
    ensures Number(signature[..], k) == Number(key[..], c)
    ensures forall j: nat | j < k :: Number(signature[..], j) == old(Number(signature[..], j))
  {
    ghost var before := signature[..];
    CopyTo(signature, target, key[source..source + NUMBER_SIZE]);
    NumberWritten(before, Number(key[..], c), signature[..], k);
  }

  lemma SelectsNext(key: Bytes, before: Bytes, after: Bytes, messageHash: Bytes, k: nat)
    requires |key| == KEY_SIZE && |before| == |after| == SIGNATURE_SIZE && |messageHash| == NUMBER_SIZE
    requires k < HASH_BITS && Selects(key, before, messageHash, k)
    requires Number(after, k) == Number(key, Choice(messageHash, k))
    requires forall j: nat | j < k :: Number(after, j) == Number(before, j)
    ensures Selects(key, after, messageHash, k + 1)
  {}

  lemma BitAt(messageHash: Bytes, i: nat, b: nat)
    requires |messageHash| == NUMBER_SIZE && i < NUMBER_SIZE && b < 8
    ensures HashBit(messageHash, 8 * i + b) == Bit(messageHash[i], b)
  {
    assert (8 * i + b) / 8 == i && (8 * i + b) % 8 == b;
  }

  /** Fills a signature with the numbers that a hash selects from a key. */
  method CollectSignature(key: array<Byte>, signature: array<Byte>, messageHash: Bytes)
    requires key.Length == KEY_SIZE && signature.Length == SIGNATURE_SIZE && key != signature
    requires |messageHash| == NUMBER_SIZE
    modifies signature
    ensures Selects(key[..], signature[..], messageHash, HASH_BITS)
    ensures forall i: nat, b: nat | i < 32 && b < 8 ::
              var k := 8 * i + b;
              signature[32 * k..32 * k + 32] == if messageHash[i] / Pow2(b) % 2 == 1 then key[64 * k..64 * k + 32]
                                                else key[64 * k + 32..64 * k + 64]
  {
    var signatureOffset, numbersPairOffset := 0, 0;
    for i := 0 to NUMBER_SIZE
      invariant signatureOffset == NUMBER_SIZE * (8 * i) && numbersPairOffset == 2 * signatureOffset
      invariant Selects(key[..], signature[..], messageHash, 8 * i)
    {
      for b := 0 to 8
        invariant signatureOffset == NUMBER_SIZE * (8 * i + b) && numbersPairOffset == 2 * signatureOffset
        invariant Selects(key[..], signature[..], messageHash, 8 * i + b)
      {
        ghost var k := 8 * i + b;
        var source := numbersPairOffset + NUMBER_SIZE;
        if Bit(messageHash[i], b) {
          source := numbersPairOffset;
        }
        BitAt(messageHash, i, b);
        ghost var before := signature[..];
        CopyNumber(key, source, signature, signatureOffset, Choice(messageHash, k), k);
        SelectsNext(key[..], before, signature[..], messageHash, k);
        numbersPairOffset := numbersPairOffset + NUMBER_SIZE * 2;
        signatureOffset := signatureOffset + NUMBER_SIZE;
      }
    }
    SelectedInPlace(key, signature, messageHash);
  }

  lemma SelectedInPlace(key: array<Byte>, signature: array<Byte>, messageHash: Bytes)
    requires key.Length == KEY_SIZE && signature.Length == SIGNATURE_SIZE && |messageHash| == NUMBER_SIZE
    requires Selects(key[..], signature[..], messageHash, HASH_BITS)
    ensures forall i: nat, b: nat | i < 32 && b < 8 ::
              var k := 8 * i + b;
              signature[32 * k..32 * k + 32] == if messageHash[i] / Pow2(b) % 2 == 1 then key[64 * k..64 * k + 32]
                                                else key[64 * k + 32..64 * k + 64]
  {
    SelectsBytes(key[..], signature[..], messageHash);
    forall i: nat, b: nat | i < 32 && b < 8
      ensures var k := 8 * i + b;
        signature[32 * k..32 * k + 32] == if messageHash[i] / Pow2(b) % 2 == 1 then key[64 * k..64 * k + 32]
                                          else key[64 * k + 32..64 * k + 64]
    {
      var k := 8 * i + b;
      assert SignatureBytes(signature[..], i, b) == signature[32 * k..32 * k + 32];
      assert SelectedBytes(key[..], messageHash, i, b)
          == if messageHash[i] / Pow2(b) % 2 == 1 then key[64 * k..64 * k + 32] else key[64 * k + 32..64 * k + 64];
    }
  }

  /** Hashes `count` numbers of a buffer into another one. */
  method HashNumbers(hash: Hash, source: array<Byte>, count: nat) returns (target: array<Byte>)
    requires IsHash(hash) && source.Length == NUMBER_SIZE * count
    ensures fresh(target) && target.Length == source.Length
    ensures forall k: nat | k < count :: Number(target[..], k) == hash(Number(source[..], k))
  {
    target := new Byte[source.Length](_ => 0);
    var offset := 0;
    for i := 0 to count
      invariant offset == NUMBER_SIZE * i
      invariant forall k: nat | k < i :: Number(target[..], k) == hash(Number(source[..], k))
    {
      ghost var before := target[..];
      var number := hash(source[offset..offset + NUMBER_SIZE]);
      CopyTo(target, offset, number);
      NumberWritten(before, number, target[..], i);
      offset := offset + NUMBER_SIZE;
    }
  }

  class PrivateKey {
    const mData: array<Byte>
    const hash: Hash
    var mIsCropped: bool

    ghost predicate Valid()
      reads this
    {
      mData.Length == KEY_SIZE && IsHash(hash)
    }

    constructor (data: array<Byte>, hash: Hash)
      requires data.Length == KEY_SIZE && IsHash(hash)
      ensures Valid() && !mIsCropped && fresh(mData) && mData[..] == data[..] && this.hash == hash
    {
      var copy := new Byte[KEY_SIZE](j requires 0 <= j < KEY_SIZE reads data => data[j]);
      mData, this.hash := copy, hash;
      mIsCropped := false;
    }

    method DerivePublicKey() returns (publicKey: array<Byte>)
      requires Valid()
      ensures fresh(publicKey) && publicKey.Length == KEY_SIZE
      ensures Derives(hash, mData[..], publicKey[..], NUMBERS)
    {
      publicKey := HashNumbers(hash, mData, NUMBERS);
    }

    /** Signs a message, once: the program stops on a key that has signed before. */
    method Sign(message: Bytes) returns (ok: bool, signature: array<Byte>)
      requires Valid()
      modifies this`mIsCropped
      ensures Valid() && mIsCropped && fresh(signature) && signature.Length == SIGNATURE_SIZE
      ensures ok == !old(mIsCropped)
      ensures ok ==> Selects(mData[..], signature[..], hash(message), HASH_BITS)
      ensures ok ==> forall i: nat, b: nat | i < 32 && b < 8 ::
                SignatureBytes(signature[..], i, b) == SelectedBytes(mData[..], hash(message), i, b)
    {
      signature := new Byte[SIGNATURE_SIZE](_ => 0);
      if mIsCropped {
        return false, signature;
      }
      CollectSignature(mData, signature, hash(message));
      SelectsBytes(mData[..], signature[..], hash(message));
      mIsCropped := true;
      ok := true;
    }
  }

  /** Checks a signature of a message against a public key. */
  method Check(hash: Hash, publicKey: array<Byte>, signature: array<Byte>, message: Bytes) returns (good: bool)
    requires IsHash(hash) && publicKey.Length == KEY_SIZE && signature.Length == SIGNATURE_SIZE
    ensures good <==> Verifies(hash, publicKey[..], signature[..], message)
    ensures good <==>
      message != [] && forall i: nat, b: nat | i < 32 && b < 8 ::
        hash(SignatureBytes(signature[..], i, b)) == SelectedBytes(publicKey[..], hash(message), i, b)
  {
    hide SignatureBytes, SelectedBytes;
    VerifiesBytes(hash, publicKey[..], signature[..], message);
    if message == [] {
      return false;
    }
    var pubKeySignature := new Byte[SIGNATURE_SIZE](_ => 0);
    CollectSignature(publicKey, pubKeySignature, hash(message));
    var hashedSignature := HashNumbers(hash, signature, HASH_BITS);
    good := pubKeySignature[..] == hashedSignature[..];
    SameNumbers(pubKeySignature[..], hashedSignature[..]);
  }

  /** Buffers are equal exactly if all their numbers are. */
  lemma SameNumbers(a: Bytes, b: Bytes)
    requires |a| == |b| == SIGNATURE_SIZE
    ensures a == b <==> forall k: nat | k < HASH_BITS :: Number(a, k) == Number(b, k)
  {
    if forall k: nat | k < HASH_BITS :: Number(a, k) == Number(b, k) {
      forall j | 0 <= j < |a| ensures a[j] == b[j] {
        var k := j / NUMBER_SIZE;
        assert Number(a, k)[j - NUMBER_SIZE * k] == Number(b, k)[j - NUMBER_SIZE * k];
      }
    }
  }

  // ----- Completeness and binding

  /** What a private key signs, its public key verifies, unless the message is empty. */
  lemma Completeness(hash: Hash, privateKey: Bytes, publicKey: Bytes, signature: Bytes, message: Bytes)
    requires IsHash(hash)
    requires |privateKey| == KEY_SIZE && |publicKey| == KEY_SIZE && |signature| == SIGNATURE_SIZE
    requires Derives(hash, privateKey, publicKey, NUMBERS)
    requires Selects(privateKey, signature, hash(message), HASH_BITS)
    ensures Verifies(hash, publicKey, signature, message) <==> message != []
  {
    forall k: nat | k < HASH_BITS
      ensures hash(Number(signature, k)) == Number(publicKey, Choice(hash(message), k))
    {
      var c := Choice(hash(message), k);
      assert Number(publicKey, c) == hash(Number(privateKey, c));
    }
  }

  /** Deriving, signing and checking with one key. */
  method SignThenCheck(key: PrivateKey, message: Bytes) returns (good: bool)
    requires key.Valid() && !key.mIsCropped
    modifies key`mIsCropped
    ensures (good <==> message != []) && key.mIsCropped
  {
    var publicKey := key.DerivePublicKey();
    var ok, signature := key.Sign(message);
    Completeness(key.hash, key.mData[..], publicKey[..], signature[..], message);
    good := Check(key.hash, publicKey, signature, message);
  }

  /** The two numbers of every pair differ. */
  ghost predicate PairsDiffer(publicKey: Bytes)
    requires |publicKey| == KEY_SIZE
  {
    forall k: nat | k < HASH_BITS :: Number(publicKey, 2 * k) != Number(publicKey, 2 * k + 1)
  }

  /** A number is determined by its bits. */
  lemma {:induction false} SameBits(x: nat, y: nat, n: nat)
    requires x < Pow2(n) && y < Pow2(n)
    requires forall b: nat | b < n :: Bit(x, b) == Bit(y, b)
    ensures x == y
  {
    if n > 0 {
      forall b: nat | b < n - 1 ensures Bit(x / 2, b) == Bit(y / 2, b) {
        assert Bit(x, b + 1) == Bit(y, b + 1);
      }
      SameBits(x / 2, y / 2, n - 1);
      assert Bit(x, 0) == Bit(y, 0);
    }
  }

  lemma SameHashBits(a: Bytes, b: Bytes)
    requires |a| == |b| == NUMBER_SIZE
    requires forall k: nat | k < HASH_BITS :: HashBit(a, k) == HashBit(b, k)
    ensures a == b
  {
    assert Pow2(8) == 256 by {
      assert Pow2(4) == 16;
    }
    forall i | 0 <= i < NUMBER_SIZE ensures a[i] == b[i] {
      forall c: nat | c < 8 ensures Bit(a[i], c) == Bit(b[i], c) {
        var k := 8 * i + c;
        assert k / 8 == i && k % 8 == c;
        assert HashBit(a, k) == HashBit(b, k);
      }
      SameBits(a[i], b[i], 8);
    }
  }

  /** Binding: under a public key whose pairs differ, one signature is good for two messages only if their
      hashes are equal. */
  lemma Binding(hash: Hash, publicKey: Bytes, signature: Bytes, m1: Bytes, m2: Bytes)
    requires IsHash(hash) && |publicKey| == KEY_SIZE && |signature| == SIGNATURE_SIZE && PairsDiffer(publicKey)
    requires Verifies(hash, publicKey, signature, m1) && Verifies(hash, publicKey, signature, m2)
    ensures hash(m1) == hash(m2)
  {
    forall k: nat | k < HASH_BITS ensures HashBit(hash(m1), k) == HashBit(hash(m2), k) {
      assert Number(publicKey, Choice(hash(m1), k)) == Number(publicKey, Choice(hash(m2), k));
      assert Number(publicKey, 2 * k) != Number(publicKey, 2 * k + 1);
    }
    SameHashBits(hash(m1), hash(m2));
  }

  /** So a signature that is good for one message is good for another exactly if their hashes are equal. */
  lemma GoodForBoth(hash: Hash, publicKey: Bytes, signature: Bytes, m1: Bytes, m2: Bytes)
    requires IsHash(hash) && |publicKey| == KEY_SIZE && |signature| == SIGNATURE_SIZE && PairsDiffer(publicKey)
    requires Verifies(hash, publicKey, signature, m1) && m2 != []
    ensures Verifies(hash, publicKey, signature, m2) <==> hash(m1) == hash(m2)
  {
    if Verifies(hash, publicKey, signature, m2) {
      Binding(hash, publicKey, signature, m1, m2);
    }
  }
}
