/**
 * The opcode table of lib/testmc/mc6800/opcodes.py: `OPCODES` maps each
 * implemented opcode byte to its mnemonic and implementation, and the
 * `Instructions` constants map each mnemonic back to its opcode.  A single
 * step fetches the opcode at PC and dispatches through the table; an
 * opcode with no entry raises `InvalidOpcode`.
 */
module Opcodes {
  import opened Bits
  import opened Wrappers
  import opened Memory
  import opened OpArith
  import opened OpImpl

  /** The implementation functions the table refers to. */
  datatype Impl = Nop | Bra | Rts | Jmpx | Jmp | Suba | Cmpa | Anda | Ldaa | Bsr | Adda | Jsrx | Jsr

  /** A table entry: the mnemonic and the implementation. */
  datatype Entry = Entry(mnemonic: string, impl: Impl)

  /** `OPCODES`. */
  const OPCODES: map<Byte, Entry> := map[
    0x01 := Entry("NOP", Nop),
    0x20 := Entry("BRA", Bra),
    0x39 := Entry("RTS", Rts),
    0x6E := Entry("JMPx", Jmpx),
    0x7E := Entry("JMP", Jmp),
    0x80 := Entry("SUBA", Suba),
    0x81 := Entry("CMPA", Cmpa),
    0x84 := Entry("ANDA", Anda),
    0x86 := Entry("LDAA", Ldaa),
    0x8D := Entry("BSR", Bsr),
    0x8B := Entry("ADDA", Adda),
    0xAD := Entry("JSRx", Jsrx),
    0xBD := Entry("JSR", Jsr)
  ]

  /** The name of the Python function an implementation stands for. */
  function ImplName(impl: Impl): string
  {
    match impl
    case Nop => "nop"
    case Bra => "bra"
    case Rts => "rts"
    case Jmpx => "jmpx"
    case Jmp => "jmp"
    case Suba => "suba"
    case Cmpa => "cmpa"
    case Anda => "anda"
    case Ldaa => "ldaa"
    case Bsr => "bsr"
    case Adda => "adda"
    case Jsrx => "jsrx"
    case Jsr => "jsr"
  }

  /** ASCII lower-casing of one character. */
  function LowerChar(c: char): char
  {
    if 'A' <= c <= 'Z' then (c as int + 0x20) as char else c
  }

  /** ASCII lower-casing. */
  function Lower(s: string): (r: string)
    ensures |r| == |s|
  {
    seq(|s|, i requires 0 <= i < |s| => LowerChar(s[i]))
  }

  /** The table has exactly these thirteen opcodes; any other byte, $FF for one, has no entry. */
  lemma OpcodeKeys()
    ensures OPCODES.Keys == {0x01, 0x20, 0x39, 0x6E, 0x7E, 0x80, 0x81, 0x84, 0x86, 0x8D, 0x8B, 0xAD, 0xBD}
    ensures 0xFF !in OPCODES
  {
  }

  /** Each entry's implementation is the function named after its mnemonic in lower case. */
  lemma ImplNamedAfterMnemonic()
    ensures forall op :: op in OPCODES ==> ImplName(OPCODES[op].impl) == Lower(OPCODES[op].mnemonic)
  {
    LowerMnemonics();
  }

  /** The thirteen mnemonics in lower case. */
  lemma LowerMnemonics()
    ensures Lower("NOP") == "nop" && Lower("BRA") == "bra" && Lower("RTS") == "rts"
    ensures Lower("JMPx") == "jmpx" && Lower("JMP") == "jmp" && Lower("SUBA") == "suba"
    ensures Lower("CMPA") == "cmpa" && Lower("ANDA") == "anda" && Lower("LDAA") == "ldaa"
    ensures Lower("BSR") == "bsr" && Lower("ADDA") == "adda" && Lower("JSRx") == "jsrx"
    ensures Lower("JSR") == "jsr"
  {
  }

  /** No two opcodes share a mnemonic. */
  lemma MnemonicsDistinct()
    ensures forall p, q :: p in OPCODES && q in OPCODES && p != q ==> OPCODES[p].mnemonic != OPCODES[q].mnemonic
  {
  }

  /**
   * The `Instructions` constants: every mnemonic in the table maps to its
   * opcode and nothing else is defined, so this is the inverse of `OPCODES`.
   */
  function Instructions(): (ins: map<string, Byte>)
    ensures forall op :: op in OPCODES ==> OPCODES[op].mnemonic in ins && ins[OPCODES[op].mnemonic] == op
    ensures forall name :: name in ins ==> ins[name] in OPCODES && OPCODES[ins[name]].mnemonic == name
  {
    MnemonicsDistinct();
    map op | op in OPCODES :: OPCODES[op].mnemonic := op
  }

  /**
   * The module-level loop that attaches one constant per table entry to
   * `Instructions`; the result is the inverse of `OPCODES` whatever order
   * the entries are visited in.
   */
  method BuildInstructions() returns (ins: map<string, Byte>)
    ensures ins == Instructions()
  {
    ins := map[];
    var todo := OPCODES.Keys;
    while todo != {}
      invariant todo <= OPCODES.Keys
      invariant PartialInverse(ins, OPCODES.Keys - todo)
      decreases |todo|
    {
      var op :| op in todo;
      PartialInverseStep(ins, OPCODES.Keys - todo, op);
      ins := ins[OPCODES[op].mnemonic := op];
      assert OPCODES.Keys - (todo - {op}) == (OPCODES.Keys - todo) + {op};
      todo := todo - {op};
    }
    InverseIsInstructions(ins);
  }

  /** `ins` holds the constants of exactly the entries in `done`. */
  ghost predicate PartialInverse(ins: map<string, Byte>, done: set<Byte>)
  {
    && done <= OPCODES.Keys
    && (forall op :: op in done ==> OPCODES[op].mnemonic in ins && ins[OPCODES[op].mnemonic] == op)
    && (forall name :: name in ins ==> ins[name] in done && OPCODES[ins[name]].mnemonic == name)
  }

  /** Attaching one more entry's constant keeps the partial inverse. */
  lemma PartialInverseStep(ins: map<string, Byte>, done: set<Byte>, op: Byte)
    requires PartialInverse(ins, done) && op in OPCODES && op !in done
    ensures PartialInverse(ins[OPCODES[op].mnemonic := op], done + {op})
  {
    MnemonicsDistinct();
  }

  /** Any map with both inverse properties of `Instructions` is `Instructions`. */
  lemma InverseIsInstructions(ins: map<string, Byte>)
    requires PartialInverse(ins, OPCODES.Keys)
    ensures ins == Instructions()
  {
    var spec := Instructions();
    assert ins.Keys == spec.Keys;
  }

  /** The implementations that push a return address: BSR, JSR indexed and JSR extended. */
  predicate Calls(impl: Impl)
  {
    impl == Bsr || impl == Jsrx || impl == Jsr
  }

  /** The implementations that only transfer control: no flag and no accumulator changes. */
  predicate Branches(impl: Impl)
  {
    impl == Nop || impl == Bra || impl == Rts || impl == Jmpx || impl == Jmp || Calls(impl)
  }

  /** The address a call pushes: past the opcode's one-byte or two-byte operand. */
  function ReturnAddress(impl: Impl, pc: Word): Word
  {
    if impl == Jsr then IncWord(pc, 2) else IncWord(pc, 1)
  }

  /**
   * What each implementation does to the registers and memory, PC already
   * past the opcode: the reference the dispatch is checked against.
   */
  function Effect(impl: Impl, s: CpuState, m: seq<Byte>): (r: (CpuState, seq<Byte>))
    requires |m| == MemSize
    ensures |r.1| == MemSize
    ensures Calls(impl) ==> r.1[s.sp] == ReturnAddress(impl, s.pc) % 0x100 &&
                            r.1[IncWord(s.sp, -1)] == ReturnAddress(impl, s.pc) / 0x100
    ensures forall k :: 0 <= k < MemSize && k != s.sp && k != IncWord(s.sp, -1) ==> r.1[k] == m[k]
    ensures !Calls(impl) ==> r.1 == m
  {
    var operand := m[s.pc];
    match impl
    case Nop => (s, m)
    case Bra => (s.(pc := RelTarget(m, s.pc)), m)
    case Rts => (s.(pc := PoppedWord(m, s.sp), sp := IncWord(s.sp, 2)), m)
    case Jmpx => (s.(pc := IncWord(s.x, operand)), m)
    case Jmp => (s.(pc := WordAtWrapping(m, s.pc)), m)
    case Suba => (s.WithSubFlags(s.a, operand, true).(a := IncByte(s.a, -(operand as int)), pc := IncWord(s.pc, 1)), m)
    case Cmpa => (s.WithSubFlags(s.a, operand, true).(pc := IncWord(s.pc, 1)), m)
    case Anda => (s.WithNZV(BitAnd(s.a, operand), 7).(a := BitAnd(s.a, operand), pc := IncWord(s.pc, 1)), m)
    case Ldaa => (s.WithNZV(operand, 7).(a := operand, pc := IncWord(s.pc, 1)), m)
    case Bsr => (s.(pc := RelTarget(m, s.pc), sp := IncWord(s.sp, -2)), PushedWord(m, s.sp, IncWord(s.pc, 1)))
    case Adda => (s.WithAddFlags(s.a, operand).(a := IncByte(s.a, operand), pc := IncWord(s.pc, 1)), m)
    case Jsrx => (s.(pc := IncWord(s.x, operand), sp := IncWord(s.sp, -2)), PushedWord(m, s.sp, IncWord(s.pc, 1)))
    case Jsr => (s.(pc := WordAtWrapping(m, s.pc), sp := IncWord(s.sp, -2)), PushedWord(m, s.sp, IncWord(s.pc, 2)))
  }

  /**
   * No implementation touches B, X or I; only RTS and the calls move SP;
   * the branches, jumps and calls leave A and the flags alone.
   */
  lemma EffectRegisters(impl: Impl, s: CpuState, m: seq<Byte>)
    requires |m| == MemSize
    ensures var s' := Effect(impl, s, m).0;
      && s'.b == s.b && s'.x == s.x && s'.i == s.i
      && s'.sp == (if impl == Rts then IncWord(s.sp, 2) else if Calls(impl) then IncWord(s.sp, -2) else s.sp)
      && (Branches(impl) ==> s'.a == s.a && s'.Ccr() == s.Ccr())
  {
    match impl {
      case Nop =>
      case Bra =>
      case Rts =>
      case Jmpx =>
      case Jmp =>
      case Suba =>
      case Cmpa =>
      case Anda =>
      case Ldaa =>
      case Bsr =>
      case Adda =>
      case Jsrx =>
      case Jsr =>
    }
  }

  /** Run one implementation; PC is already past the opcode. */
  method Execute(m: Machine, impl: Impl)
    requires m.Valid()
    modifies m, m.mem
    ensures (m.Cpu(), m.mem[..]) == Effect(impl, old(m.Cpu()), old(m.mem[..]))
  {
    match impl {
      case Nop => m.Nop();
      case Bra => m.Bra();
      case Rts => m.Rts();
      case Jmpx => m.Jmpx();
      case Jmp => m.Jmp();
      case Suba => m.Suba();
      case Cmpa => m.Cmpa();
      case Anda => m.Anda();
      case Ldaa => m.Ldaa();
      case Bsr => m.Bsr();
      case Adda => m.Adda();
      case Jsrx => m.Jsrx();
      case Jsr => m.Jsr();
    }
  }

  /**
   * A JSR extended followed by the RTS it jumps to (the subroutine is a
   * bare RTS) resumes after the JSR's operand with SP and every other
   * register as before.
   */
  lemma JsrThenRtsEffect(s: CpuState, m: seq<Byte>)
    requires |m| == MemSize
    ensures var (s1, m1) := Effect(Jsr, s, m);
            Effect(Rts, s1, m1).0 == s.(pc := IncWord(s.pc, 2))
  {
    PopAfterPush(m, s.sp, IncWord(s.pc, 2));
  }

  /**
   * One fetch-decode-execute step: read the opcode at PC and run its entry.
   * An opcode with no entry fails with `InvalidOpcode` naming that opcode
   * and its address, and changes nothing but PC.
   */
  method Step(m: Machine) returns (r: Outcome<InvalidOpcode>)
    requires m.Valid()
    modifies m, m.mem
    ensures r.Fail? <==> old(m.mem[m.pc]) !in OPCODES
    ensures r.Fail? ==> r.error == InvalidOpcode(old(m.mem[m.pc]), old(m.pc))
    ensures r.Fail? ==> m.Cpu() == old(m.Cpu().(pc := IncWord(m.pc, 1))) && m.mem[..] == old(m.mem[..])
    ensures r.Pass? ==> (m.Cpu(), m.mem[..]) == Effect(OPCODES[old(m.mem[m.pc])].impl,
                                                       old(m.Cpu().(pc := IncWord(m.pc, 1))), old(m.mem[..]))
  {
    ghost var s0, mem0 := m.Cpu(), m.mem[..];
    var opcode := m.ReadByte();
    assert m.mem[..] == mem0 && opcode == mem0[s0.pc];
    if opcode !in OPCODES {
      var e := m.Invalid();
      FetchedAddress(s0.pc);
      return Fail(e);
    }
    var impl := OPCODES[opcode].impl;
    Execute(m, impl);
    r := Pass;
  }

  /** The address `invalid` reports is the one the opcode was fetched from. */
  lemma FetchedAddress(pc: Word)
    ensures IncWord(IncWord(pc, 1), -1) == pc
  {
    if pc == 0xFFFF {
      assert IncWord(pc, 1) == 0;
    } else {
      assert IncWord(pc, 1) == pc + 1;
    }
  }
}
