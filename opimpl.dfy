/**
 * The instruction implementations of lib/testmc/mc6800/opimpl.py.
 *
 * Every function there takes the simulated machine `m` and updates its
 * registers, flags and memory in place, so the machine is a class whose
 * fields are the registers and flags and whose memory is a 64 KiB array.
 * Each instruction is a method whose ensures clause gives the whole new
 * register file as an update of the old one (`Cpu()`), and the new memory
 * as an update of the old contents; the meaning of each flag formula is
 * proved in module OpArith.
 *
 * When an instruction method is called, PC already points to the byte
 * after the opcode, as in the source.
 */
module OpImpl {
  import opened Bits
  import opened Wrappers
  import opened Memory
  import opened OpArith

  // ---------------------------------------------------------------------
  // Invalid opcodes

  /** The `InvalidOpcode` exception: the opcode byte and the address reported for it. */
  datatype InvalidOpcode = InvalidOpcode(opcode: Byte, pc: int)

  /**
   * `invalid`, with PC just past the opcode: the exception names the opcode
   * and the address it was fetched from, PC - 1 wrapped to 16 bits.
   */
  function InvalidOpcodeAt(m: seq<Byte>, pc: Word): (e: InvalidOpcode)
    requires |m| == MemSize
    ensures 0 <= e.pc <= 0xFFFF && IncWord(e.pc, 1) == pc && e.opcode == m[e.pc]
  {
    var at := IncWord(pc, -1);
    InvalidOpcode(m[at], at)
  }

  /**
   * `invalid` as opimpl.py:22 writes it: the opcode is read at PC - 1
   * wrapped, but the reported address is PC - 1 without wrapping.
   */
  function InvalidOpcodeAsWritten(m: seq<Byte>, pc: Word): (e: InvalidOpcode)
    requires |m| == MemSize
    ensures e.opcode == InvalidOpcodeAt(m, pc).opcode
    ensures pc != 0 ==> e == InvalidOpcodeAt(m, pc)
  {
    InvalidOpcode(m[IncWord(pc, -1)], pc - 1)
  }

  /**
   * An invalid opcode at $FFFF leaves PC at $0000; the address reported as
   * written is then -1, and the opcode's real address is $FFFF.
   */
  lemma InvalidAddressAtWrap(m: seq<Byte>)
    requires |m| == MemSize
    ensures InvalidOpcodeAsWritten(m, 0).pc == -1
    ensures InvalidOpcodeAt(m, 0).pc == 0xFFFF
    ensures InvalidOpcodeAsWritten(m, 0) != InvalidOpcodeAt(m, 0)
  {
  }

  // ---------------------------------------------------------------------
  // The register file

  /** A snapshot of the registers and flags of the machine. */
  datatype CpuState = CpuState(a: Byte, b: Byte, x: Word, pc: Word, sp: Word,
                               h: bool, i: bool, n: bool, z: bool, v: bool, c: bool)
  {
    /** The flags as the condition-code register holds them. */
    function Ccr(): Flags
    {
      Flags(h, i, n, z, v, c)
    }

    /** The registers with the six flags replaced. */
    function WithFlags(f: Flags): CpuState
    {
      this.(h := f.h, i := f.i, n := f.n, z := f.z, v := f.v, c := f.c)
    }

    /** `logicNZV`: N and Z from the value, V cleared, H, I and C kept. */
    function WithNZV(val: Word, signbit: nat): CpuState
      requires signbit == 7 || signbit == 15
    {
      this.(n := IsNeg(val, signbit), z := IsZero(val), v := false)
    }

    /** A shift or rotate of A: the new A and C, N and Z from A, V = N xor C. */
    function WithShifted(s: Shifted): CpuState
    {
      this.(a := s.value, c := s.carry, n := IsNeg(s.value, 7), z := IsZero(s.value),
            v := IsNeg(s.value, 7) != s.carry)
    }

    /** The flags `addHNZVC` leaves: H, N, Z, V and C of augend + addend. */
    function WithAddFlags(augend: Byte, addend: Byte): CpuState
    {
      var sum := IncByte(augend, addend);
      this.(h := AddH(augend, addend), n := IsNeg(sum, 7), z := IsZero(sum),
            v := AddV(augend, addend), c := AddC(augend, addend))
    }

    /** The flags `subNZVC` leaves: N, Z and V of minuend - subtrahend, and C when asked. */
    function WithSubFlags(minuend: Byte, subtrahend: Byte, affectC: bool): CpuState
    {
      var difference := IncByte(minuend, -(subtrahend as int));
      this.(n := IsNeg(difference, 7), z := IsZero(difference),
            v := SubV(minuend, subtrahend), c := if affectC then SubC(minuend, subtrahend) else c)
    }

    /**
     * The flags `cpxarg` leaves: Z when X equals the 16-bit argument, N and V
     * from the high bytes only, C kept.
     */
    function WithCpxFlags(argh: Byte, argl: Byte): CpuState
    {
      var xh := x / 0x100;
      this.(n := IsNeg(IncByte(xh, -(argh as int)), 7), z := x == argh * 0x100 + argl,
            v := SubV(xh, argh))
    }
  }

  /** The simulated processor: registers, flags and 64 KiB of memory. */
  class Machine {
    var a: Byte
    var b: Byte
    var x: Word
    var pc: Word
    var sp: Word
    var H: bool
    var I: bool
    var N: bool
    var Z: bool
    var V: bool
    var C: bool
    const mem: array<Byte>

    ghost predicate Valid()
    {
      mem.Length == MemSize
    }

    /** The registers and flags as a value. */
    ghost function Cpu(): CpuState
      reads this
    {
      CpuState(a, b, x, pc, sp, H, I, N, Z, V, C)
    }

    /** The byte at PC: an immediate operand, a direct address, an index offset or a branch offset. */
    ghost function Operand(): Byte
      reads this, mem
      requires Valid()
    {
      mem[pc]
    }

    /** The big-endian word at PC; its second byte wraps to $0000 after $FFFF. */
    ghost function OperandWord(): Word
      reads this, mem
      requires Valid()
    {
      WordAtWrapping(mem[..], pc)
    }

    /** The indexed address: X plus the unsigned offset byte at PC, wrapped. */
    ghost function IndexedAddr(): Word
      reads this, mem
      requires Valid()
    {
      IncWord(x, mem[pc])
    }

    /** The target of a relative branch whose offset byte is at PC. */
    ghost function BranchTarget(): Word
      reads this, mem
      requires Valid()
    {
      RelTarget(mem[..], pc)
    }

    /** The big-endian word at loc, its second byte wrapping after $FFFF. */
    ghost function WordFrom(loc: Word): Word
      reads mem
      requires Valid()
    {
      WordAtWrapping(mem[..], loc)
    }

    /** A machine with cleared registers and memory. */
    constructor ()
      ensures Valid() && fresh(mem)
      ensures Cpu() == CpuState(0, 0, 0, 0, 0, false, false, false, false, false, false)
      ensures forall k :: 0 <= k < MemSize ==> mem[k] == 0
    {
      a, b, x, pc, sp := 0, 0, 0, 0, 0;
      H, I, N, Z, V, C := false, false, false, false, false, false;
      mem := new Byte[MemSize](_ => 0);
    }

    /** `invalid`: the exception for the opcode just fetched; nothing changes. */
    method Invalid() returns (e: InvalidOpcode)
      requires Valid()
      ensures e == InvalidOpcodeAt(mem[..], pc)
      ensures e.opcode == mem[e.pc] && IncWord(e.pc, 1) == pc
    {
      var at := IncWord(pc, -1);
      e := InvalidOpcode(mem[at], at);
    }

    /** The no-operation instruction: PC is already past the opcode. */
    method Nop()
      requires Valid()
      ensures Cpu() == old(Cpu())
    {
    }

    // -------------------------------------------------------------------
    // Reading operands at PC

    /** `readbyte`: consume the byte at PC. */
    method ReadByte() returns (val: Byte)
      requires Valid()
      modifies this
      ensures val == old(Operand())
      ensures Cpu() == old(Cpu().(pc := IncWord(pc, 1)))
    {
      val := mem[pc];
      pc := IncWord(pc, 1);
    }

    /** `readsignedbyte`: consume the byte at PC as a two's-complement value. */
    method ReadSignedByte() returns (val: int)
      requires Valid()
      modifies this
      ensures -0x80 <= val < 0x80 && (val - old(Operand())) % 0x100 == 0
      ensures Cpu() == old(Cpu().(pc := IncWord(pc, 1)))
    {
      var bytes := Bytes(mem[..], pc, 1);
      val := Signed(bytes.value[0]);
      pc := IncWord(pc, 1);
    }

    /** `readword`: consume a big-endian word; PC may wrap between its bytes. */
    method ReadWord() returns (val: Word)
      requires Valid()
      modifies this
      ensures val == old(OperandWord())
      ensures Cpu() == old(Cpu().(pc := IncWord(pc, 2)))
    {
      var msb := ReadByte();
      var lsb := ReadByte();
      val := (msb as int) * 0x100 + lsb;
    }

    /** `readreloff`: consume a signed offset and return the branch target. */
    method ReadRelOff() returns (target: Word)
      requires Valid()
      modifies this
      ensures target == old(BranchTarget())
      ensures Cpu() == old(Cpu().(pc := IncWord(pc, 1)))
    {
      var offset := ReadSignedByte();
      target := IncWord(pc, offset);
    }

    /** `readindex`: consume an unsigned offset and return X plus it. */
    method ReadIndex() returns (ea: Word)
      requires Valid()
      modifies this
      ensures ea == old(IndexedAddr())
      ensures Cpu() == old(Cpu().(pc := IncWord(pc, 1)))
    {
      var offset := ReadByte();
      ea := IncWord(x, offset);
    }

    // -------------------------------------------------------------------
    // Jumps and branches

    /** JMP extended. */
    method Jmp()
      requires Valid()
      modifies this
      ensures Cpu() == old(Cpu().(pc := OperandWord()))
    {
      pc := ReadWord();
    }

    /** JMP indexed. */
    method Jmpx()
      requires Valid()
      modifies this
      ensures Cpu() == old(Cpu().(pc := IndexedAddr()))
    {
      pc := ReadIndex();
    }

    /** `branchif`: the offset is consumed either way; PC moves to the target when taken. */
    method BranchIf(taken: bool)
      requires Valid()
      modifies this
      ensures Cpu() == old(Cpu().(pc := if taken then BranchTarget() else IncWord(pc, 1)))
    {
      var target := ReadRelOff();
      if taken {
        pc := target;
      }
    }

    /** BRA: always taken. */
    method Bra()
      requires Valid()
      modifies this
      ensures Cpu() == old(Cpu().(pc := BranchTarget()))
    {
      BranchIf(true);
    }

    /** BCC: taken when C is clear. */
    method Bcc()
      requires Valid()
      modifies this
      ensures Cpu() == old(Cpu().(pc := if !C then BranchTarget() else IncWord(pc, 1)))
    {
      BranchIf(!C);
    }

    /** BCS: taken when C is set. */
    method Bcs()
      requires Valid()
      modifies this
      ensures Cpu() == old(Cpu().(pc := if C then BranchTarget() else IncWord(pc, 1)))
    {
      BranchIf(C);
    }

    /** BVC: taken when V is clear. */
    method Bvc()
      requires Valid()
      modifies this
      ensures Cpu() == old(Cpu().(pc := if !V then BranchTarget() else IncWord(pc, 1)))
    {
      BranchIf(!V);
    }

    /** BVS: taken when V is set. */
    method Bvs()
      requires Valid()
      modifies this
      ensures Cpu() == old(Cpu().(pc := if V then BranchTarget() else IncWord(pc, 1)))
    {
      BranchIf(V);
    }

    /** BEQ: taken when Z is set. */
    method Beq()
      requires Valid()
      modifies this
      ensures Cpu() == old(Cpu().(pc := if Z then BranchTarget() else IncWord(pc, 1)))
    {
      BranchIf(Z);
    }

    /** BNE: taken when Z is clear. */
    method Bne()
      requires Valid()
      modifies this
      ensures Cpu() == old(Cpu().(pc := if !Z then BranchTarget() else IncWord(pc, 1)))
    {
      BranchIf(!Z);
    }

    /** BMI: taken when N is set. */
    method Bmi()
      requires Valid()
      modifies this
      ensures Cpu() == old(Cpu().(pc := if N then BranchTarget() else IncWord(pc, 1)))
    {
      BranchIf(N);
    }

    /** BPL: taken when N is clear. */
    method Bpl()
      requires Valid()
      modifies this
      ensures Cpu() == old(Cpu().(pc := if !N then BranchTarget() else IncWord(pc, 1)))
    {
      BranchIf(!N);
    }

    // -------------------------------------------------------------------
    // The stack: SP points to the next free byte and the stack grows down

    /** `popbyte`: increment SP, then read the byte it points to. */
    method PopByte() returns (val: Byte)
      requires Valid()
      modifies this
      ensures val == mem[IncWord(old(sp), 1)]
      ensures Cpu() == old(Cpu().(sp := IncWord(sp, 1)))
    {
      sp := IncWord(sp, 1);
      val := mem[sp];
    }

    /** `popword`: the MSB is popped first, then the LSB. */
    method PopWord() returns (val: Word)
      requires Valid()
      modifies this
      ensures val == PoppedWord(mem[..], old(sp))
      ensures Cpu() == old(Cpu().(sp := IncWord(sp, 2)))
    {
      var msb := PopByte();
      var lsb := PopByte();
      val := (msb as int) * 0x100 + lsb;
    }

    /** `pushbyte`: deposit the byte at SP, then decrement SP. */
    method PushByte(byte: Byte)
      requires Valid()
      modifies this, mem
      ensures mem[..] == old(mem[..])[old(sp) := byte]
      ensures Cpu() == old(Cpu().(sp := IncWord(sp, -1)))
    {
      DepositOneByte(mem[..], sp, byte);
      var r := Deposit(mem, sp, [Scalar(byte)]);
      sp := IncWord(sp, -1);
    }

    /** `pushword`: the LSB is pushed first, then the MSB. */
    method PushWord(word: Word)
      requires Valid()
      modifies this, mem
      ensures mem[..] == PushedWord(old(mem[..]), old(sp), word)
      ensures Cpu() == old(Cpu().(sp := IncWord(sp, -2)))
    {
      PushByte(word % 0x100);
      PushByte(word / 0x100);
    }

    /** JSR extended: push the address after the operand, jump to the operand. */
    method Jsr()
      requires Valid()
      modifies this, mem
      ensures mem[..] == PushedWord(old(mem[..]), old(sp), IncWord(old(pc), 2))
      ensures Cpu() == old(Cpu().(pc := OperandWord(), sp := IncWord(sp, -2)))
    {
      var t := ReadWord();
      PushWord(pc);
      pc := t;
    }

    /** JSR indexed. */
    method Jsrx()
      requires Valid()
      modifies this, mem
      ensures mem[..] == PushedWord(old(mem[..]), old(sp), IncWord(old(pc), 1))
      ensures Cpu() == old(Cpu().(pc := IndexedAddr(), sp := IncWord(sp, -2)))
    {
      var t := ReadIndex();
      PushWord(pc);
      pc := t;
    }

    /** BSR: push the address after the offset, branch to the target. */
    method Bsr()
      requires Valid()
      modifies this, mem
      ensures mem[..] == PushedWord(old(mem[..]), old(sp), IncWord(old(pc), 1))
      ensures Cpu() == old(Cpu().(pc := BranchTarget(), sp := IncWord(sp, -2)))
    {
      var t := ReadRelOff();
      PushWord(pc);
      pc := t;
    }

    /** RTS: pop the return address into PC. */
    method Rts()
      requires Valid()
      modifies this
      ensures Cpu() == old(Cpu().(pc := PoppedWord(mem[..], sp), sp := IncWord(sp, 2)))
    {
      pc := PopWord();
    }

    /** PULA. */
    method Pula()
      requires Valid()
      modifies this
      ensures Cpu() == old(Cpu().(a := mem[IncWord(sp, 1)], sp := IncWord(sp, 1)))
    {
      a := PopByte();
    }

    /** PSHA. */
    method Psha()
      requires Valid()
      modifies this, mem
      ensures mem[..] == old(mem[..])[old(sp) := old(a)]
      ensures Cpu() == old(Cpu().(sp := IncWord(sp, -1)))
    {
      PushByte(a);
    }

    /**
     * A JSR whose target is an RTS comes back to the instruction after the
     * JSR with SP restored; only the two stack bytes below SP have changed.
     */
    method JsrThenRts()
      requires Valid()
      modifies this, mem
      ensures Cpu() == old(Cpu().(pc := IncWord(pc, 2)))
      ensures mem[..] == PushedWord(old(mem[..]), old(sp), IncWord(old(pc), 2))
    {
      ghost var m0, sp0, ret := mem[..], sp, IncWord(pc, 2);
      Jsr();
      Rts();
      PopAfterPush(m0, sp0, ret);
    }

    // -------------------------------------------------------------------
    // The condition-code register

    /** TAP: the flags from bits 5..0 of A. */
    method Tap()
      requires Valid()
      modifies this
      ensures Cpu() == old(Cpu().WithFlags(UnpackFlags(a)))
    {
      H := Bit(a, 32);
      I := Bit(a, 16);
      N := Bit(a, 8);
      Z := Bit(a, 4);
      V := Bit(a, 2);
      C := Bit(a, 1);
    }

    /** TPA: A gets the flags in bits 5..0 and ones in bits 7 and 6. */
    method Tpa()
      requires Valid()
      modifies this
      ensures Cpu() == old(Cpu().(a := PackFlags(Cpu().Ccr())))
    {
      a := PackFlags(Flags(H, I, N, Z, V, C));
    }

    // -------------------------------------------------------------------
    // Flag setting shared by data movement and logic

    /** `logicNZV`: set N and Z from the value, clear V, and return the value. */
    method LogicNZV(val: Word, signbit: nat) returns (r: Word)
      requires Valid() && (signbit == 7 || signbit == 15)
      modifies this
      ensures r == val
      ensures Cpu() == old(Cpu().WithNZV(val, signbit))
    {
      N := IsNeg(val, signbit);
      Z := IsZero(val);
      V := false;
      r := val;
    }

    /** `shiftflags`: Z and N from the value, C as given, V = N xor C. */
    method ShiftFlags(newC: bool, val: Byte) returns (r: Byte)
      requires Valid()
      modifies this
      ensures r == val
      ensures Cpu() == old(Cpu().WithShifted(Shifted(val, newC)).(a := a))
    {
      Z := IsZero(val);
      N := IsNeg(val, 7);
      C := newC;
      V := N != C;
      r := val;
    }

    // -------------------------------------------------------------------
    // Loads

    /** LDAA immediate. */
    method Ldaa()
      requires Valid()
      modifies this
      ensures Cpu() == old(Cpu().WithNZV(Operand(), 7).(a := Operand(), pc := IncWord(pc, 1)))
    {
      var v := ReadByte();
      a := LogicNZV(v, 7);
    }

    /** LDAB immediate. */
    method Ldab()
      requires Valid()
      modifies this
      ensures Cpu() == old(Cpu().WithNZV(Operand(), 7).(b := Operand(), pc := IncWord(pc, 1)))
    {
      var v := ReadByte();
      b := LogicNZV(v, 7);
    }

    /** LDAA direct: from the address in page zero given by the operand. */
    method Ldaaz()
      requires Valid()
      modifies this
      ensures Cpu() == old(Cpu().WithNZV(mem[Operand()], 7).(a := mem[Operand()], pc := IncWord(pc, 1)))
    {
      var loc := ReadByte();
      a := LogicNZV(mem[loc], 7);
    }

    /** LDAB direct. */
    method Ldabz()
      requires Valid()
      modifies this
      ensures Cpu() == old(Cpu().WithNZV(mem[Operand()], 7).(b := mem[Operand()], pc := IncWord(pc, 1)))
    {
      var loc := ReadByte();
      b := LogicNZV(mem[loc], 7);
    }

    /** LDAA extended: from the 16-bit address given by the operand. */
    method Ldaam()
      requires Valid()
      modifies this
      ensures Cpu() == old(Cpu().WithNZV(mem[OperandWord()], 7).(a := mem[OperandWord()], pc := IncWord(pc, 2)))
    {
      var loc := ReadWord();
      a := LogicNZV(mem[loc], 7);
    }

    /** LDAB extended. */
    method Ldabm()
      requires Valid()
      modifies this
      ensures Cpu() == old(Cpu().WithNZV(mem[OperandWord()], 7).(b := mem[OperandWord()], pc := IncWord(pc, 2)))
    {
      var loc := ReadWord();
      b := LogicNZV(mem[loc], 7);
    }

    /** LDAA indexed. */
    method Ldaax()
      requires Valid()
      modifies this
      ensures Cpu() == old(Cpu().WithNZV(mem[IndexedAddr()], 7).(a := mem[IndexedAddr()], pc := IncWord(pc, 1)))
    {
      var loc := ReadIndex();
      a := LogicNZV(mem[loc], 7);
    }

    /** LDAB indexed. */
    method Ldabx()
      requires Valid()
      modifies this
      ensures Cpu() == old(Cpu().WithNZV(mem[IndexedAddr()], 7).(b := mem[IndexedAddr()], pc := IncWord(pc, 1)))
    {
      var loc := ReadIndex();
      b := LogicNZV(mem[loc], 7);
    }

    /** LDX immediate: N from bit 15. */
    method Ldx()
      requires Valid()
      modifies this
      ensures Cpu() == old(Cpu().WithNZV(OperandWord(), 15).(x := OperandWord(), pc := IncWord(pc, 2)))
    {
      var v := ReadWord();
      x := LogicNZV(v, 15);
    }

    /** `ldxtarget`: load X from the big-endian word at loc0, its second byte wrapping. */
    method LdxTarget(loc0: Word)
      requires Valid()
      modifies this
      ensures Cpu() == old(Cpu().WithNZV(WordFrom(loc0), 15).(x := WordFrom(loc0)))
    {
      var loc1 := IncWord(loc0, 1);
      var val := (mem[loc0] as int) * 0x100 + mem[loc1];
      x := LogicNZV(val, 15);
    }

    /** LDX direct. */
    method Ldxz()
      requires Valid()
      modifies this
      ensures Cpu() == old(Cpu().WithNZV(WordFrom(Operand()), 15).(x := WordFrom(Operand()), pc := IncWord(pc, 1)))
    {
      var loc := ReadByte();
      LdxTarget(loc);
    }

    /** LDX extended. */
    method Ldxm()
      requires Valid()
      modifies this
      ensures Cpu() == old(Cpu().WithNZV(WordFrom(OperandWord()), 15).(x := WordFrom(OperandWord()), pc := IncWord(pc, 2)))
    {
      var loc := ReadWord();
      LdxTarget(loc);
    }

    /** LDX indexed. */
    method Ldxx()
      requires Valid()
      modifies this
      ensures Cpu() == old(Cpu().WithNZV(WordFrom(IndexedAddr()), 15).(x := WordFrom(IndexedAddr()), pc := IncWord(pc, 1)))
    {
      var loc := ReadIndex();
      LdxTarget(loc);
    }

    // -------------------------------------------------------------------
    // Clears: Z set, N, V and C cleared

    /** CLRA. */
    method Clra()
      requires Valid()
      modifies this
      ensures Cpu() == old(Cpu().WithNZV(0, 7).(a := 0, c := false))
      ensures !N && Z && !V && !C
    {
      a := LogicNZV(0, 7);
      C := false;
    }

    /** CLRB. */
    method Clrb()
      requires Valid()
      modifies this
      ensures Cpu() == old(Cpu().WithNZV(0, 7).(b := 0, c := false))
      ensures !N && Z && !V && !C
    {
      b := LogicNZV(0, 7);
      C := false;
    }

    /** CLR extended. */
    method Clrm()
      requires Valid()
      modifies this, mem
      ensures mem[..] == old(mem[..][OperandWord() := 0])
      ensures Cpu() == old(Cpu().WithNZV(0, 7).(c := false, pc := IncWord(pc, 2)))
    {
      var v := LogicNZV(0, 7);
      var loc := ReadWord();
      mem[loc] := v;
      C := false;
    }

    /** CLR indexed. */
    method Clrx()
      requires Valid()
      modifies this, mem
      ensures mem[..] == old(mem[..][IndexedAddr() := 0])
      ensures Cpu() == old(Cpu().WithNZV(0, 7).(c := false, pc := IncWord(pc, 1)))
    {
      var v := LogicNZV(0, 7);
      var loc := ReadIndex();
      mem[loc] := v;
      C := false;
    }

    // -------------------------------------------------------------------
    // Stores: N and Z from the stored value, V cleared

    /** STAA extended. */
    method Staam()
      requires Valid()
      modifies this, mem
      ensures mem[..] == old(mem[..][OperandWord() := a])
      ensures Cpu() == old(Cpu().WithNZV(a, 7).(pc := IncWord(pc, 2)))
    {
      var v := LogicNZV(a, 7);
      var loc := ReadWord();
      mem[loc] := v;
    }

    /** STAB extended. */
    method Stabm()
      requires Valid()
      modifies this, mem
      ensures mem[..] == old(mem[..][OperandWord() := b])
      ensures Cpu() == old(Cpu().WithNZV(b, 7).(pc := IncWord(pc, 2)))
    {
      var v := LogicNZV(b, 7);
      var loc := ReadWord();
      mem[loc] := v;
    }

    /** STAA indexed. */
    method Staax()
      requires Valid()
      modifies this, mem
      ensures mem[..] == old(mem[..][IndexedAddr() := a])
      ensures Cpu() == old(Cpu().WithNZV(a, 7).(pc := IncWord(pc, 1)))
    {
      var v := LogicNZV(a, 7);
      var loc := ReadIndex();
      mem[loc] := v;
    }

    /** STAB indexed. */
    method Stabx()
      requires Valid()
      modifies this, mem
      ensures mem[..] == old(mem[..][IndexedAddr() := b])
      ensures Cpu() == old(Cpu().WithNZV(b, 7).(pc := IncWord(pc, 1)))
    {
      var v := LogicNZV(b, 7);
      var loc := ReadIndex();
      mem[loc] := v;
    }

    /**
     * `stxtarget`: store X big-endian at target0 and target0 + 1 (wrapped);
     * loading X back from target0 gives the stored value.
     */
    method StxTarget(target0: Word)
      requires Valid()
      modifies this, mem
      ensures mem[..] == old(mem[..][target0 := x / 0x100][IncWord(target0, 1) := x % 0x100])
      ensures Cpu() == old(Cpu().WithNZV(x, 15))
      ensures WordFrom(target0) == x
    {
      var target1 := IncWord(target0, 1);
      mem[target0] := x / 0x100;
      mem[target1] := x % 0x100;
      N := IsNeg(x, 15);
      Z := IsZero(x);
      V := false;
    }

    /** STX direct. */
    method Stxz()
      requires Valid()
      modifies this, mem
      ensures mem[..] == old(mem[..][Operand() := x / 0x100][IncWord(Operand(), 1) := x % 0x100])
      ensures Cpu() == old(Cpu().WithNZV(x, 15).(pc := IncWord(pc, 1)))
    {
      var loc := ReadByte();
      StxTarget(loc);
    }

    /** STX extended. */
    method Stxm()
      requires Valid()
      modifies this, mem
      ensures mem[..] == old(mem[..][OperandWord() := x / 0x100][IncWord(OperandWord(), 1) := x % 0x100])
      ensures Cpu() == old(Cpu().WithNZV(x, 15).(pc := IncWord(pc, 2)))
    {
      var loc := ReadWord();
      StxTarget(loc);
    }

    // -------------------------------------------------------------------
    // Logic, shifts and rotates

    /** ANDA immediate. */
    method Anda()
      requires Valid()
      modifies this
      ensures Cpu() == old(Cpu().WithNZV(BitAnd(a, Operand()), 7).(a := BitAnd(a, Operand()), pc := IncWord(pc, 1)))
    {
      var v := ReadByte();
      a := LogicNZV(BitAnd(a, v), 7);
    }

    /** ASLA. */
    method Asla()
      requires Valid()
      modifies this
      ensures Cpu() == old(Cpu().WithShifted(Asl(a)))
    {
      var s := Asl(a);
      a := ShiftFlags(s.carry, s.value);
    }

    /** ROLA: through C. */
    method Rola()
      requires Valid()
      modifies this
      ensures Cpu() == old(Cpu().WithShifted(Rol(a, C)))
    {
      var s := Rol(a, C);
      a := ShiftFlags(s.carry, s.value);
    }

    /** LSRA. */
    method Lsra()
      requires Valid()
      modifies this
      ensures Cpu() == old(Cpu().WithShifted(Lsr(a)))
    {
      var s := Lsr(a);
      a := ShiftFlags(s.carry, s.value);
    }

    /** ASRA. */
    method Asra()
      requires Valid()
      modifies this
      ensures Cpu() == old(Cpu().WithShifted(Asr(a)))
    {
      var s := Asr(a);
      a := ShiftFlags(s.carry, s.value);
    }

    /** RORA: through C. */
    method Rora()
      requires Valid()
      modifies this
      ensures Cpu() == old(Cpu().WithShifted(Ror(a, C)))
    {
      var s := Ror(a, C);
      a := ShiftFlags(s.carry, s.value);
    }

    // -------------------------------------------------------------------
    // Arithmetic

    /** DECB: V is set when bit 7 changes, that is from $00 or $80. */
    method Decb()
      requires Valid()
      modifies this
      ensures Cpu() == old(Cpu().(b := IncByte(b, -1), n := IsNeg(IncByte(b, -1), 7),
                                  z := IncByte(b, -1) == 0, v := DecbOverflow(b)))
    {
      var b7 := Bit(b, 0x80);
      b := IncByte(b, -1);
      N := IsNeg(b, 7);
      Z := IsZero(b);
      V := b7 != Bit(b, 0x80);
    }

    /** INX: only Z is affected. */
    method Inx()
      requires Valid()
      modifies this
      ensures Cpu() == old(Cpu().(x := IncWord(x, 1), z := IncWord(x, 1) == 0))
    {
      x := IncWord(x, 1);
      Z := IsZero(x);
    }

    /** DEX: only Z is affected. */
    method Dex()
      requires Valid()
      modifies this
      ensures Cpu() == old(Cpu().(x := IncWord(x, -1), z := IncWord(x, -1) == 0))
    {
      x := IncWord(x, -1);
      Z := IsZero(x);
    }

    /** `addHNZVC`: the 8-bit sum; H, N, Z, V and C by the PRG formulas. */
    method AddHNZVC(augend: Byte, addend: Byte) returns (sum: Byte)
      requires Valid()
      modifies this
      ensures sum == IncByte(augend, addend)
      ensures Cpu() == old(Cpu().WithAddFlags(augend, addend))
    {
      sum := IncByte(augend, addend);
      N := IsNeg(sum, 7);
      Z := IsZero(sum);
      C := AddC(augend, addend);
      H := AddH(augend, addend);
      V := AddV(augend, addend);
    }

    /** ADDA immediate. */
    method Adda()
      requires Valid()
      modifies this
      ensures Cpu() == old(Cpu().WithAddFlags(a, Operand()).(a := IncByte(a, Operand()), pc := IncWord(pc, 1)))
    {
      var v := ReadByte();
      a := AddHNZVC(a, v);
    }

    /** `subNZVC`: the 8-bit difference; N, Z, V and, when affectC, C by the PRG formulas. */
    method SubNZVC(minuend: Byte, subtrahend: Byte, affectC: bool) returns (difference: Byte)
      requires Valid()
      modifies this
      ensures difference == IncByte(minuend, -(subtrahend as int))
      ensures Cpu() == old(Cpu().WithSubFlags(minuend, subtrahend, affectC))
    {
      difference := IncByte(minuend, -(subtrahend as int));
      N := IsNeg(difference, 7);
      Z := IsZero(difference);
      if affectC {
        C := SubC(minuend, subtrahend);
      }
      V := SubV(minuend, subtrahend);
    }

    /** SUBA immediate. */
    method Suba()
      requires Valid()
      modifies this
      ensures Cpu() == old(Cpu().WithSubFlags(a, Operand(), true).(a := IncByte(a, -(Operand() as int)), pc := IncWord(pc, 1)))
    {
      var v := ReadByte();
      a := SubNZVC(a, v, true);
    }

    /** CMPA immediate: the flags of SUBA, A unchanged. */
    method Cmpa()
      requires Valid()
      modifies this
      ensures Cpu() == old(Cpu().WithSubFlags(a, Operand(), true).(pc := IncWord(pc, 1)))
    {
      var v := ReadByte();
      var _ := SubNZVC(a, v, true);
    }

    /**
     * `cpxarg`: compare X with argh:argl byte by byte; Z is set exactly when
     * the two words are equal, N and V come from the high bytes, C is kept.
     */
    method CpxArg(argh: Byte, argl: Byte)
      requires Valid()
      modifies this
      ensures Cpu() == old(Cpu().WithCpxFlags(argh, argl))
      ensures Z <==> x == argh * 0x100 + argl
    {
      var xh, xl := x / 0x100, x % 0x100;
      var _ := SubNZVC(xl, argl, false);
      var zl := Z;
      var _ := SubNZVC(xh, argh, false);
      Z := zl && Z;
      ByteDifferenceZero(xl, argl);
      ByteDifferenceZero(xh, argh);
      WordBytesEqual(x, argh, argl);
    }

    /** CPX immediate. */
    method Cpx()
      requires Valid()
      modifies this
      ensures Cpu() == old(Cpu().WithCpxFlags(Operand(), mem[IncWord(pc, 1)]).(pc := IncWord(pc, 2)))
    {
      var argh := ReadByte();
      var argl := ReadByte();
      CpxArg(argh, argl);
    }

    /** CPX direct. */
    method Cpxz()
      requires Valid()
      modifies this
      ensures Cpu() == old(Cpu().WithCpxFlags(mem[Operand()], mem[IncWord(Operand(), 1)]).(pc := IncWord(pc, 1)))
    {
      var target := ReadByte();
      var argh, argl := mem[target], mem[IncWord(target, 1)];
      CpxArg(argh, argl);
    }

    /** CPX extended. */
    method Cpxm()
      requires Valid()
      modifies this
      ensures Cpu() == old(Cpu().WithCpxFlags(mem[OperandWord()], mem[IncWord(OperandWord(), 1)]).(pc := IncWord(pc, 2)))
    {
      var target := ReadWord();
      var argh, argl := mem[target], mem[IncWord(target, 1)];
      CpxArg(argh, argl);
    }
  }
}
