/** The streaming hasher: a block buffer fed by arbitrary chunks and a compressor
    that works in place, proved against the whole-message specification. */
module Sha256 {
  import opened Sha256Spec

  // ---------- machine operations against the standard's ----------

  /** The rotations of the compressor are those of the standard. */
  lemma RotationsAgree(x: Word)
    ensures x.RotateRight(7) ^ x.RotateRight(18) ^ (x >> 3) == SmallSigma0(x)
    ensures x.RotateRight(17) ^ x.RotateRight(19) ^ (x >> 10) == SmallSigma1(x)
    ensures x.RotateRight(2) ^ x.RotateRight(13) ^ x.RotateRight(22) == BigSigma0(x)
    ensures x.RotateRight(6) ^ x.RotateRight(11) ^ x.RotateRight(25) == BigSigma1(x)
  {
  }

  lemma Sum4Agrees(a: Word, b: Word, c: Word, d: Word)
    ensures a + b + c + d == Sum4(d, c, b, a)
  {
  }

  lemma Sum5Agrees(a: Word, b: Word, c: Word, d: Word, e: Word)
    ensures a + b + c + d + e == Sum5(a, b, c, d, e)
  {
  }

  lemma SumAgrees(a: Word, b: Word)
    ensures a + b == Sum(a, b)
  {
  }

  // ---------- compression ----------

  lemma EarlyWord(block: seq<Byte>, t: nat)
    requires |block| == 64 && t < 16
    ensures W(block, t) == FromBigEndian(block[4 * t], block[4 * t + 1], block[4 * t + 2], block[4 * t + 3])
  {
    hide FromBigEndian;
  }

  lemma LaterWord(block: seq<Byte>, t: nat)
    requires |block| == 64 && 16 <= t
    ensures W(block, t)
            == Sum4(SmallSigma1(W(block, t - 2)), W(block, t - 7), SmallSigma0(W(block, t - 15)), W(block, t - 16))
  {
    hide SmallSigma0, SmallSigma1, Sum4;
  }

  lemma ChoiceAndMajority(x: Word, y: Word, z: Word)
    ensures (x & y) ^ (!x & z) == Ch(x, y, z)
    ensures (x & y) ^ (x & z) ^ (y & z) == Maj(x, y, z)
  {
  }

  /** One word of the schedule loop. */
  method ScheduleStep(w16: Word, w15: Word, w7: Word, w2: Word) returns (w: Word)
    ensures w == Sum4(SmallSigma1(w2), w7, SmallSigma0(w15), w16)
  {
    hide *;
    var s0 := w15.RotateRight(7) ^ w15.RotateRight(18) ^ (w15 >> 3);
    var s1 := w2.RotateRight(17) ^ w2.RotateRight(19) ^ (w2 >> 10);
    w := w16 + s0 + w7 + s1;
    RotationsAgree(w15);
    RotationsAgree(w2);
    Sum4Agrees(w16, s0, w7, s1);
  }

  method FirstTemporary(e: Word, f: Word, g: Word, h: Word, k: Word, w: Word) returns (temporary1: Word)
    ensures temporary1 == Sum5(h, BigSigma1(e), Ch(e, f, g), k, w)
  {
    hide *;
    var sum1 := e.RotateRight(6) ^ e.RotateRight(11) ^ e.RotateRight(25);
    var choice := (e & f) ^ (!e & g);
    temporary1 := h + sum1 + choice + k + w;
    RotationsAgree(e);
    ChoiceAndMajority(e, f, g);
    Sum5Agrees(h, sum1, choice, k, w);
  }

  method SecondTemporary(a: Word, b: Word, c: Word) returns (temporary2: Word)
    ensures temporary2 == Sum(BigSigma0(a), Maj(a, b, c))
  {
    hide *;
    var sum0 := a.RotateRight(2) ^ a.RotateRight(13) ^ a.RotateRight(22);
    var majority := (a & b) ^ (a & c) ^ (b & c);
    temporary2 := sum0 + majority;
    RotationsAgree(a);
    ChoiceAndMajority(a, b, c);
    SumAgrees(sum0, majority);
  }

  method ExpandSchedule(block: array<Byte>) returns (schedule: array<Word>)
    requires block.Length == 64
    ensures fresh(schedule) && schedule.Length == 64
    ensures forall t :: 0 <= t < 64 ==> schedule[t] == W(block[..], t)
  {
    hide *;
    schedule := new Word[64](_ => 0);
    for index := 0 to 16
      invariant forall t :: 0 <= t < index ==> schedule[t] == W(block[..], t)
    {
      var offset := 4 * index;
      schedule[index] := FromBigEndian(block[offset], block[offset + 1], block[offset + 2], block[offset + 3]);
      EarlyWord(block[..], index);
    }
    for index := 16 to 64
      invariant forall t :: 0 <= t < index ==> schedule[t] == W(block[..], t)
    {
      schedule[index] :=
        ScheduleStep(schedule[index - 16], schedule[index - 15], schedule[index - 7], schedule[index - 2]);
      LaterWord(block[..], index);
    }
  }

  lemma NextRound(r: Registers, block: seq<Byte>, t: nat)
    requires |block| == 64 && t < 64
    ensures var p := Rounds(r, block, t);
            var t1 := Sum5(p.h, BigSigma1(p.e), Ch(p.e, p.f, p.g), K(t), W(block, t));
            var t2 := Sum(BigSigma0(p.a), Maj(p.a, p.b, p.c));
            Rounds(r, block, t + 1) == Registers(Sum(t1, t2), p.a, p.b, p.c, Sum(p.d, t1), p.e, p.f, p.g)
  {
    hide W, Sum, Sum5, BigSigma0, BigSigma1, Ch, Maj;
  }

  method RunRounds(start: Hash, block: array<Byte>) returns (r: Registers)
    requires block.Length == 64
    ensures r == Rounds(FromHash(start), block[..], 64)
  {
    hide *;
    var schedule := ExpandSchedule(block);
    var a, b, c, d := start[0], start[1], start[2], start[3];
    var e, f, g, h := start[4], start[5], start[6], start[7];
    Initially(start, block[..]);
    for index := 0 to 64
      invariant Registers(a, b, c, d, e, f, g, h) == Rounds(FromHash(start), block[..], index)
      invariant forall t :: 0 <= t < 64 ==> schedule[t] == W(block[..], t)
    {
      NextRound(FromHash(start), block[..], index);
      var temporary1 := FirstTemporary(e, f, g, h, K(index), schedule[index]);
      var temporary2 := SecondTemporary(a, b, c);
      SumAgrees(d, temporary1);
      SumAgrees(temporary1, temporary2);
      h := g;
      g := f;
      f := e;
      e := d + temporary1;
      d := c;
      c := b;
      b := a;
      a := temporary1 + temporary2;
    }
    r := Registers(a, b, c, d, e, f, g, h);
  }

  lemma Initially(h: Hash, block: seq<Byte>)
    requires |block| == 64
    ensures Rounds(FromHash(h), block, 0) == Registers(h[0], h[1], h[2], h[3], h[4], h[5], h[6], h[7])
  {
  }

  lemma Finally(h: Hash, block: seq<Byte>)
    requires |block| == 64
    ensures Compress(h, block) == AddHash(h, Rounds(FromHash(h), block, 64))
  {
    hide Rounds, AddHash;
  }

  lemma AddHashAt(h: Hash, r: Registers, i: nat)
    requires i < 8
    ensures AddHash(h, r)[i] == Sum(h[i], Values(r)[i])
  {
    hide Sum, Values;
  }

  method AddRegisters(state: array<Word>, r: Registers)
    requires state.Length == 8
    modifies state
    ensures state[..] == AddHash(old(state[..]), r)
  {
    hide *;
    ghost var start: Hash := state[..];
    var values := Values(r);
    for i := 0 to 8
      invariant state[..] == AddHash(start, r)[..i] + start[i..]
    {
      AddHashAt(start, r, i);
      state[i] := Sum(state[i], values[i]);
    }
  }

  method CompressBlock(state: array<Word>, block: array<Byte>)
    requires state.Length == 8 && block.Length == 64
    modifies state
    ensures state[..] == Compress(old(state[..]), old(block[..]))
  {
    hide *;
    Finally(state[..], block[..]);
    var r := RunRounds(state[..], block);
    AddRegisters(state, r);
  }

  // ---------- the streaming hasher ----------

  lemma OneBlock(h: Hash, block: seq<Byte>)
    requires |block| == 64
    ensures HashBlocks(h, block) == Compress(h, block)
  {
    hide Compress;
    assert block[..64] == block && block[64..] == [];
  }

  /** Absorbing one more complete block. */
  lemma ExtendBlocks(h: Hash, data: seq<Byte>, block: seq<Byte>)
    requires |data| % 64 == 0 && |block| == 64
    ensures HashBlocks(h, data + block) == Compress(HashBlocks(h, data), block)
  {
    HashBlocksAppend(h, data, block);
    OneBlock(HashBlocks(h, data), block);
  }

  /** The wrapping byte counter. */
  function AddLength(ghost before: nat, counter: nat, count: nat): (r: nat)
    requires counter == before % LENGTHS
    ensures r == (before + count) % LENGTHS
  {
    (counter + count) % LENGTHS
  }

  class Hasher {
    const state: array<Word>
    const block: array<Byte>
    var blockLen: nat
    var lengthBytes: nat
    /** Everything absorbed so far. */
    ghost var message: seq<Byte>

    /** The state has absorbed all complete blocks and the buffer holds the rest. */
    ghost predicate Valid()
      reads this, state, block
    {
      && state.Length == 8 && block.Length == 64
      && blockLen < 64
      && lengthBytes == |message| % LENGTHS
      && state[..] == HashWhole(message)
      && block[..blockLen] == Rest(message)
    }

    constructor ()
      ensures Valid() && fresh(state) && fresh(block)
      ensures message == []
    {
      state := new Word[8](i requires 0 <= i < 8 => H0[i]);
      block := new Byte[64](_ => 0);
      blockLen := 0;
      lengthBytes := 0;
      message := [];
      new;
      assert state[..] == H0;
    }

    /** Copies `bytes` into the buffer at `offset`. */
    method CopyIntoBlock(offset: nat, bytes: seq<Byte>)
      requires block.Length == 64 && offset + |bytes| <= 64
      modifies block
      ensures block[..] == old(block[..offset]) + bytes + old(block[offset + |bytes|..])
    {
      for i := 0 to |bytes|
        invariant block[..] == old(block[..offset]) + bytes[..i] + old(block[offset + i..])
      {
        block[offset + i] := bytes[i];
      }
    }

    /** Compresses the complete blocks of `input` straight from the input. */
    method AbsorbBlocks(input: seq<Byte>, ghost absorbed: seq<Byte>)
      returns (remaining: seq<Byte>, ghost whole: seq<Byte>)
      requires state.Length == 8
      requires |absorbed| % 64 == 0 && state[..] == HashBlocks(H0, absorbed)
      modifies state
      ensures |remaining| < 64 && |whole| % 64 == 0 && whole + remaining == absorbed + input
      ensures state[..] == HashBlocks(H0, whole)
    {
      hide *;
      remaining, whole := input, absorbed;
      while |remaining| >= 64
        invariant |whole| % 64 == 0 && whole + remaining == absorbed + input
        invariant state[..] == HashBlocks(H0, whole)
      {
        var copy := new Byte[64](i requires 0 <= i < 64 => remaining[i]);
        assert copy[..] == remaining[..64];
        CompressBlock(state, copy);
        ExtendBlocks(H0, whole, copy[..]);
        whole := whole + copy[..];
        remaining := remaining[64..];
      }
    }

    /** Tops the buffer up from `input` and compresses it if it became full. */
    method FillBlock(input: seq<Byte>, ghost absorbed: seq<Byte>) returns (remaining: seq<Byte>, ghost whole: seq<Byte>)
      requires state.Length == 8 && block.Length == 64 && blockLen < 64
      requires |absorbed| % 64 == 0 && state[..] == HashBlocks(H0, absorbed)
      modifies `blockLen, state, block
      ensures blockLen < 64 && |whole| % 64 == 0 && state[..] == HashBlocks(H0, whole)
      ensures whole + block[..blockLen] + remaining == absorbed + old(block[..blockLen]) + input
      ensures blockLen == 0 || remaining == []
    {
      hide *;
      whole := absorbed;
      var count := if 64 - blockLen < |input| then 64 - blockLen else |input|;
      CopyIntoBlock(blockLen, input[..count]);
      blockLen := blockLen + count;
      remaining := input[count..];
      assert whole + block[..blockLen] + remaining == absorbed + old(block[..blockLen]) + input;
      if blockLen == 64 {
        CompressBlock(state, block);
        blockLen := 0;
        ExtendBlocks(H0, whole, block[..]);
        whole := whole + block[..];
      }
    }

    method Update(input: seq<Byte>)
      requires Valid()
      modifies `blockLen, `lengthBytes, `message, state, block
      ensures Valid()
      ensures message == old(message) + input
    {
      hide HashBlocks, Whole, Rest, LENGTHS, AddLength, H0;
      ghost var whole := Whole(message);
      message := message + input;
      lengthBytes := AddLength(|old(message)|, lengthBytes, |input|);
      var remaining := input;
      if blockLen != 0 {
        remaining, whole := FillBlock(input, whole);
        if blockLen != 0 {
          SplitIsUnique(message, whole, block[..blockLen]);
          return;
        }
      }
      remaining, whole := AbsorbBlocks(remaining, whole);
      CopyIntoBlock(0, remaining);
      blockLen := |remaining|;
      SplitIsUnique(message, whole, remaining);
    }

    /** Zeroes the buffer from `start` up to `end`. */
    method ZeroFill(start: nat, end: nat)
      requires block.Length == 64 && start <= end <= 64
      modifies block
      ensures block[..] == old(block[..start]) + Zeros(end - start) + old(block[end..])
    {
      for i := start to end
        invariant block[..] == old(block[..start]) + Zeros(i - start) + old(block[i..])
      {
        block[i] := 0;
      }
    }

    /** Pads, compresses the last one or two blocks and returns the digest of
        everything absorbed. */
    method Finalize() returns (output: seq<Byte>)
      requires Valid()
      modifies `blockLen, state, block
      ensures output == Digest(message)
    {
      hide HashBlocks, HashBytes, Compress, Whole, Rest, Padding, LengthField, Digest, HashWhole, H0, Power256;
      ghost var rest, field := Rest(message), LengthField(8 * |message| % LENGTHS);
      var bitLength := lengthBytes * 8 % LENGTHS;
      BitLengthAgrees(|message|);
      PaddedTail(message);
      DigestFromTail(message);
      ghost var start: Hash := state[..];
      block[blockLen] := 0x80;
      blockLen := blockLen + 1;
      assert block[..blockLen] == rest + [0x80];
      if blockLen > 56 {
        ZeroFill(blockLen, 64);
        ghost var first := block[..];
        assert first == rest + [0x80] + Zeros(63 - |rest|);
        CompressBlock(state, block);
        OneBlock(start, first);
        ZeroFill(0, 64);
        CopyIntoBlock(56, LengthField(bitLength));
        assert block[..] == Zeros(56) + field;
        ExtendBlocks(start, first, block[..]);
        assert first + block[..] == rest + Padding(|message|);
      } else {
        ZeroFill(blockLen, 56);
        CopyIntoBlock(56, LengthField(bitLength));
        assert block[..] == rest + [0x80] + Zeros(55 - |rest|) + field;
        OneBlock(start, block[..]);
      }
      assert HashBlocks(start, rest + Padding(|message|)) == Compress(state[..], block[..]);
      CompressBlock(state, block);
      output := HashBytes(state[..]);
    }
  }

  lemma BitLengthAgrees(n: nat)
    ensures (n % LENGTHS) * 8 % LENGTHS == 8 * n % LENGTHS
  {
    var q := n / LENGTHS;
    assert 8 * n == (n % LENGTHS) * 8 + LENGTHS * (8 * q);
  }
}
