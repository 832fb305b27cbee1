/** The part of the x86-64 machine that the hooked prologues, the trampolines and
    the jumps consist of. */
module X64 {
  import opened Wrappers

  type Byte = b: nat | b < 0x100
  const MODULUS: nat := 0x1_0000_0000_0000_0000
  type Word = w: nat | w < MODULUS

  function Wrap(x: int): Word {
    x % MODULUS
  }

  // ---------- little-endian numbers ----------

  function FromLe(bytes: seq<Byte>): nat {
    if bytes == [] then 0 else bytes[0] + 0x100 * FromLe(bytes[1..])
  }

  function ToLe(n: nat, count: nat): (bytes: seq<Byte>)
    ensures |bytes| == count
    decreases count
  {
    if count == 0 then [] else [n % 0x100] + ToLe(n / 0x100, count - 1)
  }

  function Power(count: nat): nat {
    if count == 0 then 1 else 0x100 * Power(count - 1)
  }

  lemma {:induction false} LeRoundTrip(n: nat, count: nat)
    requires n < Power(count)
    ensures FromLe(ToLe(n, count)) == n
    decreases count
  {
    if count != 0 {
      LeRoundTrip(n / 0x100, count - 1);
      assert ToLe(n, count)[1..] == ToLe(n / 0x100, count - 1);
    }
  }

  lemma {:induction false} FromLeBound(bytes: seq<Byte>)
    ensures FromLe(bytes) < Power(|bytes|)
    decreases |bytes|
  {
    if bytes != [] {
      FromLeBound(bytes[1..]);
    }
  }

  lemma {:induction false} FromLeInjective(a: seq<Byte>, b: seq<Byte>)
    requires |a| == |b| && FromLe(a) == FromLe(b)
    ensures a == b
    decreases |a|
  {
    if a != [] {
      assert a[0] == FromLe(a) % 0x100 == b[0];
      FromLeInjective(a[1..], b[1..]);
      assert a == [a[0]] + a[1..] && b == [b[0]] + b[1..];
    }
  }

  lemma WordRoundTrip(w: Word)
    ensures FromLe(ToLe(w, 8)) == w
  {
    assert Power(8) == MODULUS;
    LeRoundTrip(w, 8);
  }

  /** Two's complement reading of an n-byte number. */
  function Signed(bytes: seq<Byte>): int {
    var n, m := FromLe(bytes), Power(|bytes|);
    if 2 * n >= m then n - m else n
  }

  lemma SmallByte(bytes: seq<Byte>)
    requires |bytes| == 1 && bytes[0] < 0x80
    ensures Signed(bytes) == bytes[0]
  {
    assert bytes[1..] == [];
    assert FromLe([]) == 0 && Power(0) == 1;
    assert FromLe(bytes) == bytes[0] && Power(1) == 0x100;
  }

  // ---------- machine state ----------

  datatype Register = Rax | Rcx | Rdx | Rbx | Rsp | Rdi

  datatype Registers = Registers(rax: Word, rcx: Word, rdx: Word, rbx: Word, rsp: Word, rdi: Word) {
    function Get(r: Register): Word {
      match r
      case Rax => rax
      case Rcx => rcx
      case Rdx => rdx
      case Rbx => rbx
      case Rsp => rsp
      case Rdi => rdi
    }

    function Set(r: Register, w: Word): Registers {
      match r
      case Rax => this.(rax := w)
      case Rcx => this.(rcx := w)
      case Rdx => this.(rdx := w)
      case Rbx => this.(rbx := w)
      case Rsp => this.(rsp := w)
      case Rdi => this.(rdi := w)
    }
  }

  datatype Flags = Flags(carry: bool, zero: bool, sign: bool, overflow: bool, parity: bool, adjust: bool)

  type Memory = Word -> Byte

  /** Registers no instruction below names are left out; nothing changes them. */
  datatype Machine = Machine(rip: Word, regs: Registers, flags: Flags, memory: Memory)

  function ByteAt(m: Memory, address: int): Byte {
    m(Wrap(address))
  }

  function Read(m: Memory, address: Word, count: nat): (bytes: seq<Byte>)
    ensures |bytes| == count && forall i :: 0 <= i < count ==> bytes[i] == ByteAt(m, address + i)
  {
    seq<Byte>(count, i requires 0 <= i < count => ByteAt(m, address + i))
  }

  function ReadWord(m: Memory, address: Word): Word {
    FromLeBound(Read(m, address, 8));
    assert Power(8) == MODULUS;
    FromLe(Read(m, address, 8))
  }

  function Write(m: Memory, address: Word, bytes: seq<Byte>): Memory
    requires |bytes| < MODULUS
  {
    (a: Word) => if Wrap(a - address) < |bytes| then bytes[Wrap(a - address)] else m(a)
  }

  // ---------- instructions ----------

  datatype Instruction =
    | SubRsp(amount: int)                  // sub rsp, imm8
    | LoadRelative(displacement: int)      // mov rax, [rip + disp32]
    | MoveImmediate(value: Word)           // mov rax, imm64
    | LoadRaxThroughRax                    // mov rax, [rax]
    | XorRaxRsp                            // xor rax, rsp
    | JumpThrough(displacement: int)       // jmp [rip + disp32]
    | CallRelative(displacement: int)      // call rel32
    | Return                               // ret
    | LoadAddress(register: Register, displacement: int)  // lea r64, [rip + disp32]
    | AddRsp(amount: int)                  // add rsp, imm8
    | TestAl                               // test al, al
    | SetZeroAl                            // sete al
    | Push(register: Register)
    | Move(to: Register, from: Register)
    | LoadByteThroughRdx                   // movzx eax, byte [rdx]
    | StoreAlThroughRcx                    // mov [rcx], al
    | TestByte(displacement: int, mask: Byte)  // test byte [rcx + disp8], imm8

  datatype Decoded = Decoded(instruction: Instruction, length: nat)

  /** The register a RIP-relative ModRM byte selects. */
  function AddressRegister(modRm: Byte): Option<Register> {
    match modRm
    case 0x05 => Some(Rax)
    case 0x0D => Some(Rcx)
    case 0x15 => Some(Rdx)
    case 0x1D => Some(Rbx)
    case 0x25 => Some(Rsp)
    case 0x3D => Some(Rdi)
    case _ => None
  }

  /** Decodes the instruction at the start of `c`. */
  function Decode(c: seq<Byte>): Option<Decoded>
    requires |c| == 15
  {
    if c[0] == 0x48 && c[1] == 0x83 && c[2] == 0xEC then Some(Decoded(SubRsp(Signed(c[3..4])), 4))
    else if c[0] == 0x48 && c[1] == 0x8B && c[2] == 0x05 then Some(Decoded(LoadRelative(Signed(c[3..7])), 7))
    else if c[0] == 0x48 && c[1] == 0xB8 then
      FromLeBound(c[2..10]);
      assert Power(8) == MODULUS;
      Some(Decoded(MoveImmediate(FromLe(c[2..10])), 10))
    else if c[0] == 0x48 && c[1] == 0x8B && c[2] == 0x00 then Some(Decoded(LoadRaxThroughRax, 3))
    else if c[0] == 0x48 && c[1] == 0x33 && c[2] == 0xC4 then Some(Decoded(XorRaxRsp, 3))
    else if c[0] == 0xFF && c[1] == 0x25 then Some(Decoded(JumpThrough(Signed(c[2..6])), 6))
    else if c[0] == 0xC3 then Some(Decoded(Return, 1))
    else if c[0] == 0x48 && c[1] == 0x8D && AddressRegister(c[2]).Some? then
      Some(Decoded(LoadAddress(AddressRegister(c[2]).value, Signed(c[3..7])), 7))
    else if c[0] == 0x48 && c[1] == 0x83 && c[2] == 0xC4 then Some(Decoded(AddRsp(Signed(c[3..4])), 4))
    else if c[0] == 0x84 && c[1] == 0xC0 then Some(Decoded(TestAl, 2))
    else if c[0] == 0x0F && c[1] == 0x94 && c[2] == 0xC0 then Some(Decoded(SetZeroAl, 3))
    else if c[0] == 0xE8 then Some(Decoded(CallRelative(Signed(c[1..5])), 5))
    else if c[0] == 0x40 && c[1] == 0x53 then Some(Decoded(Push(Rbx), 2))
    else if c[0] == 0x57 then Some(Decoded(Push(Rdi), 1))
    else if c[0] == 0x48 && c[1] == 0x8B && c[2] == 0xDA then Some(Decoded(Move(Rbx, Rdx), 3))
    else if c[0] == 0x48 && c[1] == 0x8B && c[2] == 0xFA then Some(Decoded(Move(Rdi, Rdx), 3))
    else if c[0] == 0x0F && c[1] == 0xB6 && c[2] == 0x02 then Some(Decoded(LoadByteThroughRdx, 3))
    else if c[0] == 0x88 && c[1] == 0x01 then Some(Decoded(StoreAlThroughRcx, 2))
    else if c[0] == 0xF6 && c[1] == 0x41 then Some(Decoded(TestByte(Signed(c[2..3]), c[3]), 4))
    else None
  }

  /** Whether an instruction means the same wherever it stands. */
  predicate PositionIndependent(i: Instruction) {
    !i.LoadRelative? && !i.JumpThrough? && !i.CallRelative? && !i.LoadAddress? && !i.Return?
  }

  function TwoTo(bits: nat): nat {
    if bits == 0 then 1 else 2 * TwoTo(bits - 1)
  }

  /** Bitwise exclusive or of the low `bits` bits. */
  function XorBits(x: nat, y: nat, bits: nat): (r: nat)
    ensures r < TwoTo(bits)
    decreases bits
  {
    if bits == 0 then 0 else (x % 2 + y % 2) % 2 + 2 * XorBits(x / 2, y / 2, bits - 1)
  }

  function AndBits(x: nat, y: nat, bits: nat): (r: nat)
    ensures r < TwoTo(bits)
    decreases bits
  {
    if bits == 0 then 0 else (if x % 2 == 1 && y % 2 == 1 then 1 else 0) + 2 * AndBits(x / 2, y / 2, bits - 1)
  }

  lemma AndBitsParts(x: nat, y: nat, bits: nat)
    ensures AndBits(x, y, bits + 1) == (if y % 2 == 1 then x % 2 else 0) + 2 * AndBits(x / 2, y / 2, bits)
  {
  }

  function XorByte(x: Byte, y: Byte): Byte {
    assert TwoTo(8) == 0x100;
    XorBits(x, y, 8)
  }

  function XorBytes(x: Word, y: Word): (bytes: seq<Byte>)
    ensures |bytes| == 8
  {
    seq<Byte>(8, i requires 0 <= i < 8 => XorByte(ToLe(x, 8)[i], ToLe(y, 8)[i]))
  }

  /** Exclusive or of two words, byte by byte. */
  function Xor(x: Word, y: Word): Word {
    FromLeBound(XorBytes(x, y));
    assert Power(8) == MODULUS;
    FromLe(XorBytes(x, y))
  }

  lemma XorBitsParts(x: nat, y: nat, bits: nat)
    requires bits != 0
    ensures XorBits(x, y, bits) % 2 == (x % 2 + y % 2) % 2
    ensures XorBits(x, y, bits) / 2 == XorBits(x / 2, y / 2, bits - 1)
  {
    assert XorBits(x, y, bits) == (x % 2 + y % 2) % 2 + 2 * XorBits(x / 2, y / 2, bits - 1);
  }

  lemma SameParts(x: nat, z: nat, y: nat)
    requires ((x % 2 + y % 2) % 2 + y % 2) % 2 == z % 2 && x / 2 == z / 2
    ensures x == z
  {
    assert x % 2 == z % 2;
  }

  lemma HalfFits(x: nat, bits: nat)
    requires x < TwoTo(bits) && bits != 0
    ensures x / 2 < TwoTo(bits - 1)
  {
  }

  lemma {:induction false} XorBitsTwice(x: nat, y: nat, bits: nat)
    requires x < TwoTo(bits)
    ensures XorBits(XorBits(x, y, bits), y, bits) == x
    decreases bits
  {
    if bits != 0 {
      HalfFits(x, bits);
      hide *;
      var once := XorBits(x, y, bits);
      XorBitsTwice(x / 2, y / 2, bits - 1);
      XorBitsParts(x, y, bits);
      XorBitsParts(once, y, bits);
      SameParts(x, XorBits(once, y, bits), y);
    }
  }

  lemma XorByteTwice(x: Byte, y: Byte)
    ensures XorByte(XorByte(x, y), y) == x
  {
    assert TwoTo(8) == 0x100;
    XorBitsTwice(x, y, 8);
    hide XorBits;
  }

  /** Exclusive or with a fixed word loses nothing. */
  lemma XorInjective(x: Word, z: Word, y: Word)
    requires Xor(x, y) == Xor(z, y)
    ensures x == z
  {
    hide XorByte, ToLe;
    var xs, zs, ys := ToLe(x, 8), ToLe(z, 8), ToLe(y, 8);
    FromLeInjective(XorBytes(x, y), XorBytes(z, y));
    forall i | 0 <= i < 8 ensures xs[i] == zs[i] {
      assert XorBytes(x, y)[i] == XorBytes(z, y)[i];
      XorByteTwice(xs[i], ys[i]);
      XorByteTwice(zs[i], ys[i]);
    }
    assert xs == zs;
    WordRoundTrip(x);
    WordRoundTrip(z);
  }

  function And(x: Byte, y: Byte): Byte {
    assert TwoTo(8) == 0x100;
    AndBits(x, y, 8)
  }

  function OnesMod2(n: nat): bool {
    if n == 0 then false else (n % 2 == 1) != OnesMod2(n / 2)
  }

  function SubtractFlags(x: Word, y: Word): Flags {
    var d := Wrap(x - y);
    var signX, signY, signD := 2 * x >= MODULUS, 2 * y >= MODULUS, 2 * d >= MODULUS;
    Flags(x < y, d == 0, signD, signX != signY && signX != signD, !OnesMod2(d % 0x100), x % 16 < y % 16)
  }

  function AddFlags(x: Word, y: Word): Flags {
    var d := Wrap(x + y);
    var signX, signY, signD := 2 * x >= MODULUS, 2 * y >= MODULUS, 2 * d >= MODULUS;
    var overflow := signX == signY && signX != signD;
    Flags(x + y >= MODULUS, d == 0, signD, overflow, !OnesMod2(d % 0x100), x % 16 + y % 16 >= 16)
  }

  /** Logical instructions leave the adjust flag undefined; here it becomes false. */
  function LogicFlags(zero: bool, sign: bool, low: Byte): Flags {
    Flags(false, zero, sign, false, !OnesMod2(low), false)
  }

  /** Executes one instruction; `next` is the address after it. */
  function Execute(i: Instruction, next: Word, s: Machine): Machine {
    var r := s.regs;
    match i
    case SubRsp(amount) =>
      s.(rip := next, regs := r.(rsp := Wrap(r.rsp - amount)), flags := SubtractFlags(r.rsp, Wrap(amount)))
    case LoadRelative(d) => s.(rip := next, regs := r.(rax := ReadWord(s.memory, Wrap(next + d))))
    case MoveImmediate(w) => s.(rip := next, regs := r.(rax := w))
    case LoadRaxThroughRax => s.(rip := next, regs := r.(rax := ReadWord(s.memory, r.rax)))
    case XorRaxRsp =>
      var x := Xor(r.rax, r.rsp);
      s.(rip := next, regs := r.(rax := x), flags := LogicFlags(x == 0, 2 * x >= MODULUS, x % 0x100))
    case JumpThrough(d) => s.(rip := ReadWord(s.memory, Wrap(next + d)))
    case CallRelative(d) =>
      var top := Wrap(r.rsp - 8);
      s.(rip := Wrap(next + d), regs := r.(rsp := top), memory := Write(s.memory, top, ToLe(next, 8)))
    case Return => s.(rip := ReadWord(s.memory, r.rsp), regs := r.(rsp := Wrap(r.rsp + 8)))
    case LoadAddress(register, d) => s.(rip := next, regs := r.Set(register, Wrap(next + d)))
    case AddRsp(amount) =>
      s.(rip := next, regs := r.(rsp := Wrap(r.rsp + amount)), flags := AddFlags(r.rsp, Wrap(amount)))
    case TestAl =>
      var al := r.rax % 0x100;
      s.(rip := next, flags := LogicFlags(al == 0, al >= 0x80, al))
    case SetZeroAl => s.(rip := next, regs := r.(rax := r.rax - r.rax % 0x100 + if s.flags.zero then 1 else 0))
    case Push(register) =>
      var top := Wrap(r.rsp - 8);
      s.(rip := next, regs := r.(rsp := top), memory := Write(s.memory, top, ToLe(r.Get(register), 8)))
    case Move(to, from) => s.(rip := next, regs := r.Set(to, r.Get(from)))
    case LoadByteThroughRdx => s.(rip := next, regs := r.(rax := s.memory(r.rdx)))
    case StoreAlThroughRcx => s.(rip := next, memory := Write(s.memory, r.rcx, [r.rax % 0x100]))
    case TestByte(d, mask) =>
      var x := And(s.memory(Wrap(r.rcx + d)), mask);
      s.(rip := next, flags := LogicFlags(x == 0, x >= 0x80, x))
  }

  /** One step; undecodable code stops the machine. */
  function Step(s: Machine): Option<Machine> {
    var decoded := Decode(Read(s.memory, s.rip, 15));
    if decoded.None? then None
    else Some(Execute(decoded.value.instruction, Wrap(s.rip + decoded.value.length), s))
  }

  function Steps(s: Machine, n: nat): Option<Machine>
    decreases n
  {
    if n == 0 then Some(s)
    else
      var s1 := Step(s);
      if s1.None? then None else Steps(s1.value, n - 1)
  }

  /** The bytes `code` stand in memory at `address`. */
  ghost predicate CodeAt(m: Memory, address: Word, code: seq<Byte>) {
    forall i :: 0 <= i < |code| ==> code[i] == ByteAt(m, address + i)
  }

  lemma WrapAdd(a: Word, i: int, j: int)
    ensures Wrap(Wrap(a + i) + j) == Wrap(a + i + j)
  {
  }

  /** Code at an address, continued in the middle. */
  lemma CodeAtSuffix(m: Memory, address: Word, code: seq<Byte>, k: nat)
    requires CodeAt(m, address, code) && k <= |code|
    ensures CodeAt(m, Wrap(address + k), code[k..])
  {
    forall i | 0 <= i < |code| - k ensures code[k..][i] == ByteAt(m, Wrap(address + k) + i) {
      WrapAdd(address, k, i);
      assert code[k + i] == ByteAt(m, address + (k + i));
    }
  }

  lemma ReadCode(m: Memory, address: Word, code: seq<Byte>, count: nat)
    requires CodeAt(m, address, code) && count <= |code|
    ensures Read(m, address, count) == code[..count]
  {
  }

  /** Reading part of a longer read. */
  lemma ReadSlice(m: Memory, address: Word, count: nat, from: nat, to: nat)
    requires from <= to <= count
    ensures Read(m, address, count)[from..to] == Read(m, Wrap(address + from), to - from)
  {
    forall i | 0 <= i < to - from
      ensures Read(m, address, count)[from..to][i] == Read(m, Wrap(address + from), to - from)[i]
    {
      WrapAdd(address, from, i);
      assert Read(m, address, count)[from + i] == ByteAt(m, address + (from + i));
    }
  }

  /** A word that was written is read back. */
  lemma WriteThenRead(m: Memory, address: Word, w: Word)
    ensures ReadWord(Write(m, address, ToLe(w, 8)), address) == w
  {
    hide ToLe, FromLe;
    var n := Write(m, address, ToLe(w, 8));
    forall i | 0 <= i < 8 ensures Read(n, address, 8)[i] == ToLe(w, 8)[i] {
      OffsetBack(address, i);
    }
    assert Read(n, address, 8) == ToLe(w, 8);
    WordRoundTrip(w);
  }

  lemma OffsetBack(address: Word, i: nat)
    requires i < 8
    ensures Wrap(Wrap(address + i) - address) == i
  {
  }

  /** A push is undone by a return: it goes where the pushed word says, with the stack
      pointer as it was. */
  lemma ReturnUndoesCall(s: Machine, d: int, next: Word, later: Machine)
    requires var called := Execute(CallRelative(d), next, s);
             && later.regs.rsp == called.regs.rsp
             && Read(later.memory, later.regs.rsp, 8) == Read(called.memory, called.regs.rsp, 8)
    ensures var back := Execute(Return, 0, later);
            back.rip == next && back.regs.rsp == s.regs.rsp && back.memory == later.memory
  {
    hide ToLe, FromLe, Read, Write;
    var top := Wrap(s.regs.rsp - 8);
    WriteThenRead(s.memory, top, next);
    WrapAdd(s.regs.rsp, -8, 8);
  }
}
