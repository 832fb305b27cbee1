/** SHA-256 as FIPS 180-4 defines it, on whole messages and by recursion. Words
    are 32-bit vectors, so `+` is addition modulo 2^32. */
module Sha256Spec {
  type Byte = b: nat | b < 0x100
  type Word = bv32

  type Hash = h: seq<Word> | |h| == 8 witness seq(8, _ => 0)

  /** Section 5.3.3: the initial hash value. */
  const H0: Hash := [
    0x6a09e667, 0xbb67ae85, 0x3c6ef372, 0xa54ff53a, 0x510e527f, 0x9b05688c, 0x1f83d9ab, 0x5be0cd19]

  /** Section 4.2.2: the round constants. */
  const K_ROWS: seq<Hash> := [
    [0x428a2f98, 0x71374491, 0xb5c0fbcf, 0xe9b5dba5, 0x3956c25b, 0x59f111f1, 0x923f82a4, 0xab1c5ed5],
    [0xd807aa98, 0x12835b01, 0x243185be, 0x550c7dc3, 0x72be5d74, 0x80deb1fe, 0x9bdc06a7, 0xc19bf174],
    [0xe49b69c1, 0xefbe4786, 0x0fc19dc6, 0x240ca1cc, 0x2de92c6f, 0x4a7484aa, 0x5cb0a9dc, 0x76f988da],
    [0x983e5152, 0xa831c66d, 0xb00327c8, 0xbf597fc7, 0xc6e00bf3, 0xd5a79147, 0x06ca6351, 0x14292967],
    [0x27b70a85, 0x2e1b2138, 0x4d2c6dfc, 0x53380d13, 0x650a7354, 0x766a0abb, 0x81c2c92e, 0x92722c85],
    [0xa2bfe8a1, 0xa81a664b, 0xc24b8b70, 0xc76c51a3, 0xd192e819, 0xd6990624, 0xf40e3585, 0x106aa070],
    [0x19a4c116, 0x1e376c08, 0x2748774c, 0x34b0bcb5, 0x391c0cb3, 0x4ed8aa4a, 0x5b9cca4f, 0x682e6ff3],
    [0x748f82ee, 0x78a5636f, 0x84c87814, 0x8cc70208, 0x90befffa, 0xa4506ceb, 0xbef9a3f7, 0xc67178f2]]

  function K(t: nat): Word
    requires t < 64
  {
    K_ROWS[t / 8][t % 8]
  }

  // ---------- section 4.1.2: functions ----------

  function Ch(x: Word, y: Word, z: Word): Word { (x & y) ^ (!x & z) }
  function Maj(x: Word, y: Word, z: Word): Word { (x & y) ^ (x & z) ^ (y & z) }

  /** Section 3.2 defines the rotation by n as the disjunction of a right shift by
      n and a left shift by 32 - n. */
  function BigSigma0(x: Word): Word {
    ((x >> 2) | (x << 30)) ^ ((x >> 13) | (x << 19)) ^ ((x >> 22) | (x << 10))
  }

  function BigSigma1(x: Word): Word {
    ((x >> 6) | (x << 26)) ^ ((x >> 11) | (x << 21)) ^ ((x >> 25) | (x << 7))
  }

  function SmallSigma0(x: Word): Word {
    ((x >> 7) | (x << 25)) ^ ((x >> 18) | (x << 14)) ^ (x >> 3)
  }

  function SmallSigma1(x: Word): Word {
    ((x >> 17) | (x << 15)) ^ ((x >> 19) | (x << 13)) ^ (x >> 10)
  }

  function Sum(x: Word, y: Word): Word { x + y }
  function Sum4(w: Word, x: Word, y: Word, z: Word): Word { w + x + y + z }
  function Sum5(v: Word, w: Word, x: Word, y: Word, z: Word): Word { v + w + x + y + z }

  // ---------- section 6.2.2: one block ----------

  /** Section 3.1: four bytes as one word, most significant first. */
  function Join(b0: bv8, b1: bv8, b2: bv8, b3: bv8): Word {
    ((b0 as Word) << 24) | ((b1 as Word) << 16) | ((b2 as Word) << 8) | (b3 as Word)
  }

  function FromBigEndian(b0: Byte, b1: Byte, b2: Byte, b3: Byte): Word {
    Join(b0 as bv8, b1 as bv8, b2 as bv8, b3 as bv8)
  }

  function WordAt(block: seq<Byte>, t: nat): Word
    requires 4 * t + 4 <= |block|
  {
    FromBigEndian(block[4 * t], block[4 * t + 1], block[4 * t + 2], block[4 * t + 3])
  }

  function W(block: seq<Byte>, t: nat): Word
    requires |block| == 64
    decreases t
  {
    if t < 16 then WordAt(block, t)
    else Sum4(SmallSigma1(W(block, t - 2)), W(block, t - 7), SmallSigma0(W(block, t - 15)), W(block, t - 16))
  }

  datatype Registers = Registers(a: Word, b: Word, c: Word, d: Word, e: Word, f: Word, g: Word, h: Word)

  function Round(r: Registers, k: Word, w: Word): Registers {
    var t1 := Sum5(r.h, BigSigma1(r.e), Ch(r.e, r.f, r.g), k, w);
    var t2 := Sum(BigSigma0(r.a), Maj(r.a, r.b, r.c));
    Registers(Sum(t1, t2), r.a, r.b, r.c, Sum(r.d, t1), r.e, r.f, r.g)
  }

  function Rounds(r: Registers, block: seq<Byte>, t: nat): Registers
    requires |block| == 64 && t <= 64
  {
    if t == 0 then r else Round(Rounds(r, block, t - 1), K(t - 1), W(block, t - 1))
  }

  function FromHash(h: Hash): Registers {
    Registers(h[0], h[1], h[2], h[3], h[4], h[5], h[6], h[7])
  }

  function Values(r: Registers): Hash {
    [r.a, r.b, r.c, r.d, r.e, r.f, r.g, r.h]
  }

  /** The working variables are the words of the hash, in the same order both ways. */
  lemma WorkingVariables(h: Hash, r: Registers)
    ensures Values(FromHash(h)) == h && FromHash(Values(r)) == r
  {
  }

  function AddHash(h: Hash, r: Registers): Hash {
    seq(8, i requires 0 <= i < 8 => Sum(h[i], Values(r)[i]))
  }

  function Compress(h: Hash, block: seq<Byte>): Hash
    requires |block| == 64
  {
    AddHash(h, Rounds(FromHash(h), block, 64))
  }

  /** Sections 5.2.1 and 6.2.2: the hash of consecutive 512-bit blocks. */
  function HashBlocks(h: Hash, data: seq<Byte>): Hash
    requires |data| % 64 == 0
    decreases |data|
  {
    if data == [] then h else HashBlocks(Compress(h, data[..64]), data[64..])
  }

  lemma {:induction false} HashBlocksAppend(h: Hash, first: seq<Byte>, second: seq<Byte>)
    requires |first| % 64 == 0 && |second| % 64 == 0
    ensures |first + second| % 64 == 0
    ensures HashBlocks(h, first + second) == HashBlocks(HashBlocks(h, first), second)
    decreases |first|
  {
    hide Compress;
    if first == [] {
      assert first + second == second;
    } else {
      assert (first + second)[..64] == first[..64];
      assert (first + second)[64..] == first[64..] + second;
      HashBlocksAppend(Compress(h, first[..64]), first[64..], second);
    }
  }

  /** The complete blocks of a message, and what is left over. */
  function Whole(message: seq<Byte>): (r: seq<Byte>)
    ensures |r| % 64 == 0 && |message| - |r| == |message| % 64
    ensures r + Rest(message) == message
  {
    message[..|message| / 64 * 64]
  }

  function Rest(message: seq<Byte>): (r: seq<Byte>)
    ensures |r| == |message| % 64
  {
    message[|message| / 64 * 64..]
  }

  /** A split into complete blocks and a shorter rest is the only one. */
  lemma SplitIsUnique(message: seq<Byte>, data: seq<Byte>, tail: seq<Byte>)
    requires message == data + tail && |data| % 64 == 0 && |tail| < 64
    ensures data == Whole(message) && tail == Rest(message)
  {
    assert |data| == |message| / 64 * 64;
    assert message[..|data|] == data && message[|data|..] == tail;
  }

  function HashWhole(message: seq<Byte>): Hash {
    HashBlocks(H0, Whole(message))
  }

  // ---------- section 5.1.1: padding ----------

  const LENGTHS: nat := 0x1_0000_0000_0000_0000

  /** Zero bytes between the byte 0x80 and the length field. */
  function ZeroBytes(length: nat): (k: nat)
    ensures k < 64 && (length + 1 + k + 8) % 64 == 0
  {
    (119 - length % 64) % 64
  }

  function Power256(i: nat): nat {
    if i == 0 then 1 else 256 * Power256(i - 1)
  }

  lemma Power256Positive(i: nat)
    ensures Power256(i) > 0
  {
  }

  function BigEndianByte(value: nat, i: nat): Byte
    requires i < 8
  {
    Power256Positive(7 - i);
    value / Power256(7 - i) % 256
  }

  /** The 64-bit big-endian length field. */
  function LengthField(bits: nat): (field: seq<Byte>)
    ensures |field| == 8
  {
    seq(8, i requires 0 <= i < 8 => BigEndianByte(bits, i))
  }

  function BigEndianValue(bytes: seq<Byte>): nat {
    if bytes == [] then 0 else 256 * BigEndianValue(bytes[..|bytes| - 1]) + bytes[|bytes| - 1]
  }

  lemma DivideTwice(n: nat, i: nat)
    requires i < 8
    ensures Power256(i) > 0 && Power256(i + 1) == 256 * Power256(i)
    ensures n / Power256(i + 1) == n / Power256(i) / 256
  {
    Power256Positive(i);
    match i
    case 0 => assert n / 0x100 == n / 1 / 256;
    case 1 => assert n / 0x1_0000 == n / 0x100 / 256;
    case 2 => assert n / 0x100_0000 == n / 0x1_0000 / 256;
    case 3 => assert n / 0x1_0000_0000 == n / 0x100_0000 / 256;
    case 4 => assert n / 0x100_0000_0000 == n / 0x1_0000_0000 / 256;
    case 5 => assert n / 0x1_0000_0000_0000 == n / 0x100_0000_0000 / 256;
    case 6 => assert n / 0x100_0000_0000_0000 == n / 0x1_0000_0000_0000 / 256;
    case _ => assert n / 0x1_0000_0000_0000_0000 == n / 0x100_0000_0000_0000 / 256;
  }

  lemma {:induction false} LengthFieldPrefix(bits: nat, i: nat)
    requires i <= 8 && bits < LENGTHS
    ensures Power256(8 - i) > 0
    ensures BigEndianValue(LengthField(bits)[..i]) == bits / Power256(8 - i)
  {
    Power256Positive(8 - i);
    if i == 0 {
      assert Power256(8) == LENGTHS;
    } else {
      LengthFieldPrefix(bits, i - 1);
      Power256Positive(8 - i);
      DivideTwice(bits, 8 - i);
      var prefix := LengthField(bits)[..i];
      assert prefix[..i - 1] == LengthField(bits)[..i - 1];
    }
  }

  /** The length field is the big-endian representation of the bit length. */
  lemma LengthFieldValue(bits: nat)
    requires bits < LENGTHS
    ensures BigEndianValue(LengthField(bits)) == bits
  {
    LengthFieldPrefix(bits, 8);
    assert LengthField(bits)[..8] == LengthField(bits);
    assert Power256(0) == 1;
  }

  function Zeros(n: nat): seq<Byte> {
    seq(n, _ => 0)
  }

  function Padding(length: nat): (p: seq<Byte>)
    ensures (length + |p|) % 64 == 0
  {
    [0x80] + Zeros(ZeroBytes(length)) + LengthField(8 * length % LENGTHS)
  }

  /** In bits: the message, a one, and the fewest zeros that leave 64 bits of the
      last 512-bit block for the length. */
  lemma PaddingIsMinimal(length: nat, k: nat)
    ensures var zeroBits := 7 + 8 * ZeroBytes(length);
            && (8 * length + 1 + zeroBits) % 512 == 448
            && ((8 * length + 1 + k) % 512 == 448 ==> zeroBits <= k)
  {
    var zeroBits := 7 + 8 * ZeroBytes(length);
    var q := (length + 1 + ZeroBytes(length) + 8) / 64;
    assert 8 * length + 1 + zeroBits == 512 * (q - 1) + 448;
    if (8 * length + 1 + k) % 512 == 448 {
      var p := (8 * length + 1 + k) / 512;
      assert zeroBits - k == 512 * (q - 1 - p);
    }
  }

  // ---------- the digest ----------

  function WordBytes(w: Word): (bytes: seq<Byte>)
    ensures |bytes| == 4
  {
    [ (w >> 24) as bv8 as Byte, ((w >> 16) & 0xFF) as bv8 as Byte,
      ((w >> 8) & 0xFF) as bv8 as Byte, (w & 0xFF) as bv8 as Byte]
  }

  lemma ByteRoundTrip(x: bv8)
    ensures (x as Byte) as bv8 == x
  {
  }

  lemma Reassemble(w: Word)
    ensures Join((w >> 24) as bv8, ((w >> 16) & 0xFF) as bv8, ((w >> 8) & 0xFF) as bv8, (w & 0xFF) as bv8) == w
  {
  }

  lemma WordBytesRoundTrip(w: Word)
    ensures var b := WordBytes(w); FromBigEndian(b[0], b[1], b[2], b[3]) == w
  {
    hide Join;
    ByteRoundTrip((w >> 24) as bv8);
    ByteRoundTrip(((w >> 16) & 0xFF) as bv8);
    ByteRoundTrip(((w >> 8) & 0xFF) as bv8);
    ByteRoundTrip((w & 0xFF) as bv8);
    Reassemble(w);
  }

  function HashBytes(h: seq<Word>): (bytes: seq<Byte>)
    ensures |bytes| == 4 * |h|
  {
    if h == [] then [] else HashBytes(h[..|h| - 1]) + WordBytes(h[|h| - 1])
  }

  lemma {:induction false} HashBytesRoundTrip(h: seq<Word>, i: nat)
    requires i < |h|
    ensures WordAt(HashBytes(h), i) == h[i]
    decreases |h|
  {
    hide FromBigEndian, WordBytes;
    var last := |h| - 1;
    if i == last {
      WordBytesRoundTrip(h[last]);
    } else {
      HashBytesRoundTrip(h[..last], i);
    }
  }

  /** SHA-256 of a message. FIPS 180-4 defines it below 2^64 bits. */
  function Digest(message: seq<Byte>): seq<Byte> {
    HashBytes(HashBlocks(H0, message + Padding(|message|)))
  }

  /** What the last one or two blocks of a padded message look like. */
  lemma PaddedTail(message: seq<Byte>)
    ensures var r, field := Rest(message), LengthField(8 * |message| % LENGTHS);
            && (|r| <= 55 ==> r + Padding(|message|) == r + [0x80] + Zeros(55 - |r|) + field)
            && (|r| > 55 ==> r + Padding(|message|) == (r + [0x80] + Zeros(63 - |r|)) + (Zeros(56) + field))
  {
    var r := Rest(message);
    if |r| > 55 {
      assert ZeroBytes(|message|) == (63 - |r|) + 56;
      assert Zeros(ZeroBytes(|message|)) == Zeros(63 - |r|) + Zeros(56);
    } else {
      assert ZeroBytes(|message|) == 55 - |r|;
    }
  }

  lemma DigestFromTail(message: seq<Byte>)
    ensures var tail := Rest(message) + Padding(|message|);
            && |tail| % 64 == 0
            && Digest(message) == HashBytes(HashBlocks(HashWhole(message), tail))
  {
    hide HashBlocks;
    var tail := Rest(message) + Padding(|message|);
    assert message + Padding(|message|) == Whole(message) + tail;
    HashBlocksAppend(H0, Whole(message), tail);
  }
}
