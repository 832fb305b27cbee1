/** The generic inline hook: the displaced prologue is copied unchanged and followed
    by a jump back. This preserves meaning for position-independent prologues. */
module InlineHooks {
  import opened Wrappers
  import opened X64
  import opened Trampolines

  datatype Item = Item(code: seq<Byte>, instruction: Instruction)

  function Bytes(items: seq<Item>): seq<Byte> {
    if items == [] then [] else items[0].code + Bytes(items[1..])
  }

  ghost predicate Relocatable(items: seq<Item>) {
    forall item <- items :: Encodes(item.code, item.instruction) && PositionIndependent(item.instruction)
  }

  /** The items executed one after another. */
  function RunItems(items: seq<Item>, s: Machine): Machine
    decreases |items|
  {
    if items == [] then s
    else RunItems(items[1..], After(items[0], s))
  }

  // ---------- two memories that differ only in code ----------

  ghost predicate SameOutside(m: Memory, n: Memory, code: iset<Word>) {
    forall a: Word :: a !in code ==> m(a) == n(a)
  }

  ghost predicate SameInside(m: Memory, n: Memory, code: iset<Word>) {
    forall a: Word :: a in code ==> m(a) == n(a)
  }

  ghost predicate Alike(s: Machine, t: Machine, code: iset<Word>) {
    s.regs == t.regs && s.flags == t.flags && SameOutside(s.memory, t.memory, code)
  }

  function Offset(address: Word, k: int): Word {
    Wrap(address + k)
  }

  ghost predicate Outside(code: iset<Word>, address: Word, length: nat) {
    forall k :: 0 <= k < length ==> Offset(address, k) !in code
  }

  /** What an instruction writes lies outside the code. */
  ghost predicate WritesOutside(i: Instruction, s: Machine, code: iset<Word>) {
    match i
    case Push(_) => Outside(code, Wrap(s.regs.rsp - 8), 8)
    case StoreAlThroughRcx => s.regs.rcx !in code
    case _ => true
  }

  /** What it reads means the same to it on both machines. */
  ghost predicate Sees(i: Instruction, s: Machine, t: Machine) {
    match i
    case LoadByteThroughRdx => s.memory(s.regs.rdx) == t.memory(s.regs.rdx)
    case TestByte(d, mask) => And(s.memory(Wrap(s.regs.rcx + d)), mask) == And(t.memory(Wrap(s.regs.rcx + d)), mask)
    case LoadRaxThroughRax => Read(s.memory, s.regs.rax, 8) == Read(t.memory, s.regs.rax, 8)
    case _ => true
  }

  function After(item: Item, s: Machine): Machine {
    Execute(item.instruction, Wrap(s.rip + |item.code|), s)
  }

  ghost predicate AllWriteOutside(items: seq<Item>, s: Machine, code: iset<Word>)
    decreases |items|
  {
    items == [] ||
    (WritesOutside(items[0].instruction, s, code) && AllWriteOutside(items[1..], After(items[0], s), code))
  }

  ghost predicate AllSee(items: seq<Item>, s: Machine, t: Machine)
    decreases |items|
  {
    items == [] ||
    (Sees(items[0].instruction, s, t) && AllSee(items[1..], After(items[0], s), After(items[0], t)))
  }

  /** Data outside the code is seen alike. */
  lemma OutsideIsSeen(i: Instruction, s: Machine, t: Machine, code: iset<Word>)
    requires Alike(s, t, code)
    requires i.LoadByteThroughRdx? ==> s.regs.rdx !in code
    requires i.TestByte? ==> Wrap(s.regs.rcx + i.displacement) !in code
    requires i.LoadRaxThroughRax? ==> Outside(code, s.regs.rax, 8)
    ensures Sees(i, s, t)
  {
    if i.LoadRaxThroughRax? {
      ReadAlike(s.memory, t.memory, s.regs.rax, 8, code);
    }
  }

  lemma WriteAvoids(m: Memory, address: Word, bytes: seq<Byte>, code: iset<Word>)
    requires |bytes| < MODULUS && Outside(code, address, |bytes|)
    ensures SameInside(m, Write(m, address, bytes), code)
  {
    forall a: Word | a in code ensures Write(m, address, bytes)(a) == m(a) {
      WrapBack(address, a);
      assert Offset(address, Wrap(a - address)) == a;
    }
  }

  lemma ReadAlike(m: Memory, n: Memory, address: Word, count: nat, code: iset<Word>)
    requires SameOutside(m, n, code) && Outside(code, address, count)
    ensures Read(m, address, count) == Read(n, address, count)
  {
    forall k | 0 <= k < count ensures Read(m, address, count)[k] == Read(n, address, count)[k] {
      assert Offset(address, k) !in code;
    }
  }

  lemma WrapBack(address: Word, a: Word)
    ensures Wrap(address + Wrap(a - address)) == a
  {
    WrapAdd(address, 0, 0);
  }

  /** One instruction on two alike machines that sees the same on both. */
  lemma ExecuteAlike(i: Instruction, s: Machine, nextS: Word, t: Machine, nextT: Word, code: iset<Word>)
    requires PositionIndependent(i) && Alike(s, t, code) && Sees(i, s, t)
    ensures Alike(Execute(i, nextS, s), Execute(i, nextT, t), code)
  {
    hide XorBits, AndBits, And, LogicFlags, SubtractFlags, FromLe, ToLe;
  }

  lemma ExecuteKeepsCode(i: Instruction, s: Machine, next: Word, code: iset<Word>)
    requires PositionIndependent(i) && WritesOutside(i, s, code)
    ensures SameInside(s.memory, Execute(i, next, s).memory, code) && Execute(i, next, s).rip == next
  {
    hide XorBits, AndBits, And, LogicFlags, SubtractFlags, FromLe;
    match i
    case Push(register) =>
      WriteAvoids(s.memory, Wrap(s.regs.rsp - 8), ToLe(s.regs.Get(register), 8), code);
    case StoreAlThroughRcx =>
      WriteAvoids(s.memory, s.regs.rcx, [s.regs.rax % 0x100], code);
    case _ =>
  }

  // ---------- straight-line runs ----------

  ghost predicate Covers(code: iset<Word>, address: Word, length: nat) {
    forall k :: 0 <= k < length ==> Offset(address, k) in code
  }

  lemma CoversSuffix(code: iset<Word>, address: Word, length: nat, k: nat)
    requires Covers(code, address, length) && k <= length
    ensures Covers(code, Wrap(address + k), length - k)
  {
    var middle := Wrap(address + k);
    forall j | 0 <= j < length - k ensures Offset(middle, j) in code {
      WrapAdd(address, k, j);
      assert Offset(address, k + j) in code;
    }
  }

  lemma CodeSurvives(m: Memory, n: Memory, address: Word, bytes: seq<Byte>, code: iset<Word>)
    requires CodeAt(m, address, bytes) && Covers(code, address, |bytes|) && SameInside(m, n, code)
    ensures CodeAt(n, address, bytes)
  {
    forall i | 0 <= i < |bytes| ensures bytes[i] == ByteAt(n, address + i) {
      assert Offset(address, i) in code;
      assert bytes[i] == ByteAt(m, address + i);
    }
  }

  /** A copy of the prologue anywhere, with other code behind it, runs to its end. */
  lemma {:induction false} CopyRuns(items: seq<Item>, s: Machine, tail: seq<Byte>, code: iset<Word>)
    requires Relocatable(items) && AllWriteOutside(items, s, code)
    requires CodeAt(s.memory, s.rip, Bytes(items) + tail) && Covers(code, s.rip, |Bytes(items) + tail|)
    ensures var end := RunItems(items, s);
            && Steps(s, |items|) == Some(end)
            && end.rip == Wrap(s.rip + |Bytes(items)|) && CodeAt(end.memory, end.rip, tail)
    decreases |items|
  {
    hide Encodes, Execute, Step, Steps, WritesOutside, AllWriteOutside, Relocatable, CodeAt, Covers, Bytes, RunItems;
    if items == [] {
      NothingRuns(s, tail);
    } else {
      var item, rest := items[0], items[1..];
      Peel(items, s, code);
      BytesSplit(items, tail);
      RunItemsSplit(items, s);
      hide *;
      FirstItem(item, s, Bytes(rest) + tail, code);
      CopyRuns(rest, After(item, s), tail, code);
      OneStep(s, After(item, s), |rest|);
      WrapAdd(s.rip, |item.code|, |Bytes(rest)|);
    }
  }

  /** Two copies that see the same end alike. */
  lemma {:induction false} CopiesRunAlike(items: seq<Item>, s: Machine, t: Machine, code: iset<Word>)
    requires Relocatable(items) && Alike(s, t, code) && AllSee(items, s, t)
    ensures Alike(RunItems(items, s), RunItems(items, t), code)
    decreases |items|
  {
    hide Encodes, Execute, Sees, Alike;
    if items != [] {
      var i := items[0].instruction;
      assert items[0] in items;
      ExecuteAlike(i, s, Wrap(s.rip + |items[0].code|), t, Wrap(t.rip + |items[0].code|), code);
      CopiesRunAlike(items[1..], After(items[0], s), After(items[0], t), code);
    }
  }

  lemma NothingRuns(s: Machine, tail: seq<Byte>)
    ensures Steps(s, 0) == Some(RunItems([], s)) && RunItems([], s) == s
    ensures |Bytes([])| == 0 && Bytes([]) + tail == tail && Wrap(s.rip) == s.rip
  {
  }

  /** The first item of a relocatable prologue, and the rest behind it. */
  lemma Peel(items: seq<Item>, s: Machine, code: iset<Word>)
    requires items != [] && Relocatable(items) && AllWriteOutside(items, s, code)
    ensures var item, rest := items[0], items[1..];
            && Encodes(item.code, item.instruction) && PositionIndependent(item.instruction)
            && WritesOutside(item.instruction, s, code) && Relocatable(rest)
            && AllWriteOutside(rest, After(item, s), code)
  {
    hide Encodes, Execute, WritesOutside;
  }

  lemma BytesSplit(items: seq<Item>, tail: seq<Byte>)
    requires items != []
    ensures Bytes(items) + tail == items[0].code + (Bytes(items[1..]) + tail)
    ensures |Bytes(items)| == |items[0].code| + |Bytes(items[1..])|
  {
    Regroup(items[0].code, Bytes(items[1..]), tail);
  }

  lemma Regroup(a: seq<Byte>, b: seq<Byte>, c: seq<Byte>)
    ensures (a + b) + c == a + (b + c)
  {
  }

  lemma RunItemsSplit(items: seq<Item>, s: Machine)
    requires items != []
    ensures RunItems(items, s) == RunItems(items[1..], After(items[0], s))
  {
    hide Execute;
  }

  lemma FirstItem(item: Item, s: Machine, rest: seq<Byte>, code: iset<Word>)
    requires Encodes(item.code, item.instruction) && PositionIndependent(item.instruction)
    requires WritesOutside(item.instruction, s, code)
    requires CodeAt(s.memory, s.rip, item.code + rest) && Covers(code, s.rip, |item.code + rest|)
    ensures var s1 := After(item, s);
            && Step(s) == Some(s1) && s1.rip == Wrap(s.rip + |item.code|)
            && CodeAt(s1.memory, s1.rip, rest) && Covers(code, s1.rip, |rest|)
  {
    hide Encodes, Execute, Step, WritesOutside, CodeAt, Covers, SameInside, PositionIndependent;
    AdvanceOne(item, s, rest, code);
    ExecuteKeepsCode(item.instruction, s, Wrap(s.rip + |item.code|), code);
    CodeSurvives(s.memory, After(item, s).memory, After(item, s).rip, rest, code);
  }

  lemma AdvanceOne(item: Item, s: Machine, rest: seq<Byte>, code: iset<Word>)
    requires Encodes(item.code, item.instruction)
    requires CodeAt(s.memory, s.rip, item.code + rest) && Covers(code, s.rip, |item.code + rest|)
    ensures Step(s) == Some(Execute(item.instruction, Wrap(s.rip + |item.code|), s))
    ensures CodeAt(s.memory, Wrap(s.rip + |item.code|), rest) && Covers(code, Wrap(s.rip + |item.code|), |rest|)
  {
    hide Encodes, Execute, Step;
    var all := item.code + rest;
    assert all[0..|item.code|] == item.code && all[|item.code|..] == rest;
    assert Wrap(s.rip + 0) == s.rip;
    Slice(s.memory, s.rip, all, 0, |item.code|);
    StepEncoded(s, item.code, item.instruction);
    CodeAtSuffix(s.memory, s.rip, all, |item.code|);
    CoversSuffix(code, s.rip, |all|, |item.code|);
  }

  /** A prologue whose effect shows everything it has seen. */
  ghost predicate Revealing(items: seq<Item>) {
    forall s: Machine, t: Machine, code: iset<Word> ::
      Alike(s, t, code) && Alike(RunItems(items, s), RunItems(items, t), code) ==> AllSee(items, s, t)
  }

  /** The copied prologue and its jump do what the prologue did in its place: both
      arrive behind it, with the same registers, flags and data memory if they saw the
      same. `code` holds the routine's first bytes and the trampoline; only there may
      memory differ. */
  lemma CopiedPrologueRunsAlike(items: seq<Item>, s: Machine, t: Machine, code: iset<Word>)
    requires Relocatable(items) && Alike(s, t, code)
    requires AllWriteOutside(items, s, code) && AllWriteOutside(items, t, code)
    requires CodeAt(s.memory, s.rip, Bytes(items)) && Covers(code, s.rip, |Bytes(items)|)
    requires var trampoline := Bytes(items) + AbsoluteJump(Wrap(s.rip + |Bytes(items)|));
             CodeAt(t.memory, t.rip, trampoline) && Covers(code, t.rip, |trampoline|)
    ensures var before, after := Steps(s, |items|), Steps(t, |items| + 1);
            && before.Some? && after.Some?
            && before.value.rip == after.value.rip == Wrap(s.rip + |Bytes(items)|)
            && (AllSee(items, s, t) ==> Alike(before.value, after.value, code))
            && (Revealing(items) ==> (Alike(before.value, after.value, code) <==> AllSee(items, s, t)))
  {
    hide Encodes, Execute, Step, Steps, WritesOutside, AllWriteOutside, Sees, AllSee, AbsoluteJump, CodeAt, Covers;
    hide Relocatable, RunItems, Bytes;
    var next := Wrap(s.rip + |Bytes(items)|);
    var jump := AbsoluteJump(next);
    assert Bytes(items) + [] == Bytes(items);
    CopyRuns(items, s, [], code);
    CopyRuns(items, t, jump, code);
    if AllSee(items, s, t) {
      CopiesRunAlike(items, s, t, code);
    }
    var t1 := RunItems(items, t);
    JumpReachesItsDestination(t1, next);
    StepsAdd(t, |items|, 1);
    OneStep(t1, t1.(rip := next), 0);
    NoSteps(t1.(rip := next));
    AlikeAnywhere(RunItems(items, s), t1, next, code);
  }

  lemma AlikeAnywhere(s: Machine, t: Machine, rip: Word, code: iset<Word>)
    ensures Alike(s, t, code) <==> Alike(s, t.(rip := rip), code)
  {
  }

  // ---------- the two prologues that are displaced this way ----------

  /** push rbx; sub rsp, 20h; movzx eax, byte [rdx]; mov rbx, rdx; mov [rcx], al */
  const CONFIG_PROLOGUE: seq<Item> := [
    Item([0x40, 0x53], Push(Rbx)),
    Item([0x48, 0x83, 0xEC, 0x20], SubRsp(0x20)),
    Item([0x0F, 0xB6, 0x02], LoadByteThroughRdx),
    Item([0x48, 0x8B, 0xDA], Move(Rbx, Rdx)),
    Item([0x88, 0x01], StoreAlThroughRcx)]

  /** push rbx; push rdi; sub rsp, 28h; test byte [rcx + 32h], 4; mov rdi, rdx */
  const BACKEND_PROLOGUE: seq<Item> := [
    Item([0x40, 0x53], Push(Rbx)),
    Item([0x57], Push(Rdi)),
    Item([0x48, 0x83, 0xEC, 0x28], SubRsp(0x28)),
    Item([0xF6, 0x41, 0x32, 0x04], TestByte(0x32, 0x04)),
    Item([0x48, 0x8B, 0xFA], Move(Rdi, Rdx))]

  lemma EncodesPushes()
    ensures Encodes([0x40, 0x53], Push(Rbx)) && Encodes([0x57], Push(Rdi))
  {
  }

  lemma EncodesMoves()
    ensures Encodes([0x0F, 0xB6, 0x02], LoadByteThroughRdx) && Encodes([0x88, 0x01], StoreAlThroughRcx)
    ensures Encodes([0x48, 0x8B, 0xDA], Move(Rbx, Rdx)) && Encodes([0x48, 0x8B, 0xFA], Move(Rdi, Rdx))
  {
    hide Signed;
  }

  lemma EncodesTest()
    ensures Encodes([0xF6, 0x41, 0x32, 0x04], TestByte(0x32, 0x04))
  {
    hide Signed;
    forall c: seq<Byte> | |c| == 15 && [0xF6, 0x41, 0x32, 0x04] <= c ensures Signed(c[2..3]) == 0x32 && c[3] == 0x04 {
      SmallByte(c[2..3]);
    }
  }

  lemma AllFive(items: seq<Item>)
    requires |items| == 5
    ensures Bytes(items) == items[0].code + (items[1].code + (items[2].code + (items[3].code + items[4].code)))
  {
    assert items[1..][1..][1..][1..][1..] == [];
    assert Bytes(items[1..][1..][1..][1..]) == items[4].code;
    assert Bytes(items[1..][1..][1..]) == items[3].code + items[4].code;
    assert Bytes(items[1..][1..]) == items[2].code + (items[3].code + items[4].code);
  }

  lemma ConfigPrologueIsRelocatable()
    ensures Relocatable(CONFIG_PROLOGUE)
    ensures Bytes(CONFIG_PROLOGUE)
            == [0x40, 0x53, 0x48, 0x83, 0xEC, 0x20, 0x0F, 0xB6, 0x02, 0x48, 0x8B, 0xDA, 0x88, 0x01]
  {
    hide Encodes, Bytes;
    EncodesPushes();
    EncodesMoves();
    EncodesSub();
    AllFive(CONFIG_PROLOGUE);
  }

  lemma BackendPrologueIsRelocatable()
    ensures Relocatable(BACKEND_PROLOGUE)
    ensures Bytes(BACKEND_PROLOGUE)
            == [0x40, 0x53, 0x57, 0x48, 0x83, 0xEC, 0x28, 0xF6, 0x41, 0x32, 0x04, 0x48, 0x8B, 0xFA]
  {
    hide Encodes, Bytes;
    EncodesPushes();
    EncodesMoves();
    EncodesTest();
    EncodesSub();
    AllFive(BACKEND_PROLOGUE);
  }

  lemma UnfoldFive(items: seq<Item>, s: Machine)
    requires |items| == 5
    ensures RunItems(items, s)
            == After(items[4], After(items[3], After(items[2], After(items[1], After(items[0], s)))))
  {
    hide Execute, After;
    var s1 := After(items[0], s);
    var s2 := After(items[1], s1);
    var s3 := After(items[2], s2);
    var s4 := After(items[3], s3);
    assert items[1..][1..][1..][1..] == [items[4]] && [items[4]][1..] == [];
    assert RunItems([items[4]], s4) == After(items[4], s4);
    assert RunItems(items[1..][1..][1..], s3) == RunItems([items[4]], s4);
    assert RunItems(items[1..][1..], s2) == RunItems(items[1..][1..][1..], s3);
    assert RunItems(items[1..], s1) == RunItems(items[1..][1..], s2);
  }

  lemma SeeFive(items: seq<Item>, s: Machine, t: Machine)
    requires |items| == 5
    ensures var s1, t1 := After(items[0], s), After(items[0], t);
            var s2, t2 := After(items[1], s1), After(items[1], t1);
            var s3, t3 := After(items[2], s2), After(items[2], t2);
            var s4, t4 := After(items[3], s3), After(items[3], t3);
            && Sees(items[0].instruction, s, t) && Sees(items[1].instruction, s1, t1)
            && Sees(items[2].instruction, s2, t2) && Sees(items[3].instruction, s3, t3)
            && Sees(items[4].instruction, s4, t4)
            ==> AllSee(items, s, t)
  {
    hide Execute, After, Sees;
    var s1, t1 := After(items[0], s), After(items[0], t);
    var s2, t2 := After(items[1], s1), After(items[1], t1);
    var s3, t3 := After(items[2], s2), After(items[2], t2);
    var s4, t4 := After(items[3], s3), After(items[3], t3);
    assert items[1..][1..][1..][1..] == [items[4]] && [items[4]][1..] == [];
    assert AllSee([items[4]], s4, t4) <==> Sees(items[4].instruction, s4, t4);
    assert AllSee(items[1..][1..][1..], s3, t3) <==> Sees(items[3].instruction, s3, t3) && AllSee([items[4]], s4, t4);
    assert AllSee(items[1..][1..], s2, t2)
           <==> Sees(items[2].instruction, s2, t2) && AllSee(items[1..][1..][1..], s3, t3);
    assert AllSee(items[1..], s1, t1) <==> Sees(items[1].instruction, s1, t1) && AllSee(items[1..][1..], s2, t2);
  }

  /** The byte at RDX ends up in RAX. */
  lemma ConfigResult(s: Machine)
    ensures var s2 := After(CONFIG_PROLOGUE[1], After(CONFIG_PROLOGUE[0], s));
            s2.regs.rdx == s.regs.rdx && RunItems(CONFIG_PROLOGUE, s).regs.rax == s2.memory(s.regs.rdx)
  {
    hide RunItems, SubtractFlags, ToLe, Write;
    UnfoldFive(CONFIG_PROLOGUE, s);
  }

  lemma ConfigPrologueIsRevealing()
    ensures Revealing(CONFIG_PROLOGUE)
  {
    hide RunItems, AllSee, Execute, After;
    forall s: Machine, t: Machine, code: iset<Word>
      | Alike(s, t, code) && Alike(RunItems(CONFIG_PROLOGUE, s), RunItems(CONFIG_PROLOGUE, t), code)
      ensures AllSee(CONFIG_PROLOGUE, s, t)
    {
      ConfigResult(s);
      ConfigResult(t);
      SeeFive(CONFIG_PROLOGUE, s, t);
    }
  }

  /** The bit under test ends up in the zero flag. */
  lemma BackendResult(s: Machine)
    ensures var s3 := After(BACKEND_PROLOGUE[2], After(BACKEND_PROLOGUE[1], After(BACKEND_PROLOGUE[0], s)));
            && s3.regs.rcx == s.regs.rcx
            && (RunItems(BACKEND_PROLOGUE, s).flags.zero <==> And(s3.memory(Wrap(s.regs.rcx + 0x32)), 0x04) == 0)
  {
    hide RunItems, SubtractFlags, ToLe, Write, And, OnesMod2;
    UnfoldFive(BACKEND_PROLOGUE, s);
  }

  lemma BackendPrologueIsRevealing()
    ensures Revealing(BACKEND_PROLOGUE)
  {
    hide RunItems, AllSee, Execute, After, And;
    forall b: Byte ensures And(b, 0x04) == 0 || And(b, 0x04) == 4 {
      ThirdBit(b);
    }
    forall s: Machine, t: Machine, code: iset<Word>
      | Alike(s, t, code) && Alike(RunItems(BACKEND_PROLOGUE, s), RunItems(BACKEND_PROLOGUE, t), code)
      ensures AllSee(BACKEND_PROLOGUE, s, t)
    {
      BackendResult(s);
      BackendResult(t);
      SeeFive(BACKEND_PROLOGUE, s, t);
    }
  }

  lemma ThirdBit(b: Byte)
    ensures And(b, 0x04) == 4 * (b / 4 % 2)
  {
    hide AndBits, TwoTo;
    var b1 := b / 2;
    var b2 := b1 / 2;
    assert b2 == b / 4;
    AndBitsParts(b, 4, 7);
    AndBitsParts(b1, 2, 6);
    AndBitsParts(b2, 1, 5);
    AndBitsZero(b2 / 2, 5);
  }

  lemma {:induction false} AndBitsZero(x: nat, bits: nat)
    ensures AndBits(x, 0, bits) == 0
    decreases bits
  {
    if bits != 0 {
      AndBitsZero(x / 2, bits - 1);
    }
  }
}
