# Motorola 6800 simulator core, in Dafny

This project models the core of the 8bitdev Motorola 6800 simulator and
proves properties of it:

- **Memory access** (`MemoryAccess` in `lib/mc6800sim/memory.py`): the
  bounds-checked reads `byte`, `bytes`, `word` and `words`, and the
  validating writes `deposit` and `depword`. Reads are functions of the
  memory contents. The writes are methods that update a 64 KiB array in
  place. A write checks every value before it touches memory, so a
  rejected write changes nothing.
- **Instruction implementations** (`lib/testmc/mc6800/opimpl.py`): every
  instruction function there updates the simulated machine in place. The
  helpers `incbyte`, `incword`, `isneg` and `iszero` are pure and are
  functions in `arith.dfy`; `invalid` raises and changes nothing. The machine is
  therefore a class whose fields are the registers A, B, X, PC and SP and
  the flags H, I, N, Z, V and C, with memory held in an `array<Byte>` of
  $10000 cells. Each instruction is a method. Its `ensures` clause gives
  the whole new register file as an update of the old one (`Cpu()`), plus
  the new memory contents.
  The condition-code formulas are the ones the 6800 Programming Reference
  Manual (PRG) gives. They are written as the source writes them, and
  each is proved to mean what it should: the carry out of the sum, a
  borrow, or a signed overflow.
- **Opcode table** (`lib/testmc/mc6800/opcodes.py`): the `OPCODES` map from
  opcode byte to mnemonic and implementation, and the derived
  `Instructions` constants. The model adds a single fetch-decode-execute
  `Step` built on the table. Its reference definition is `Effect`.
- **Symbol table** (`lib/testmc/symtab.py`): a table built once from
  symbol records into a Python dict. It is modelled as the dict's items in
  insertion order. The reference functions `LastWith` and `FirstIndex`
  say, from the records alone, which record a name ends up with and where
  it stands in iteration order.

Files: `bits.dfy` (bytes, words, bit tests), `wrappers.dfy` (`Option`,
`Result`, `Outcome`), `memory.dfy`, `arith.dfy` (the pure arithmetic of
`opimpl.py`), `opimpl.dfy` (the `Machine` class), `opcodes.dfy` and
`symtab.dfy`.

Points where the code's behaviour is worth spelling out:

- `pushword` (opimpl.py:108-111) pushes the LSB first, then the MSB, so
  the MSB ends up at the lower address, which is where `popword` reads it
  from. `PopAfterPush` proves that a pop after a push gives back the word.
- The opcode table is a Python dict literal, so a repeated key would
  quietly replace the earlier entry. The table as written has no repeated
  key: `OpcodeKeys` lists its thirteen keys.
- `nop`, which opcodes.py:11 refers to, is not defined in opimpl.py. Its
  evident meaning, doing nothing after the fetch, is modelled as
  `Machine.Nop`.
- `decb` sets V when bit 7 changes (opimpl.py:236). That happens for
  $80 -> $7F and also for $00 -> $FF. The processor sets V only for the
  first. `DecbOverflow` proves exactly which inputs set V, and
  `Machine.Decb` keeps the formula as written because the source states
  it on purpose in its comment.

## Model

| member | source | states |
|---|---|---|
| Memory.ByteAt | lib/mc6800sim/memory.py:25-27 | the byte read at addr is the single byte `bytes(addr, 1)` returns |
| Memory.Bytes | lib/mc6800sim/memory.py:29-35 | succeeds exactly when addr+n-1 <= $FFFF, and then returns the n cells from addr in order; otherwise IndexError names addr+n-1 |
| Memory.WordAt | lib/mc6800sim/memory.py:37-40 | big-endian: the high byte of the word is the cell at addr, the low byte the cell at addr+1 |
| Memory.Words | lib/mc6800sim/memory.py:42-46 | n words, the i-th being the big-endian word at addr+2i; when n > 0, `bytes(addr, 2n)` succeeds and word i is its bytes 2i (high) and 2i+1 (low) |
| Memory.CheckValue | lib/mc6800sim/memory.py:59-63 | `assertvalue` passes exactly when the value is an integer in 0..max (max $FF here, $FFFF at memory.py:96-100) and keeps it; otherwise a ValueError for the deposit address naming the non-integral value or the out-of-range integer |
| Memory.FirstBadItem | lib/mc6800sim/memory.py:71 | `map` checks the elements in order: every element before the index passes `assertvalue` and the element at it, if any, fails |
| Memory.CheckItems | lib/mc6800sim/memory.py:70-72 | a sequence argument passes exactly when every element is an integer in 0..max; the values come back in order; a failure is the ValueError of the first bad element |
| Memory.CheckArg | lib/mc6800sim/memory.py:66-74 | one argument passes exactly when it is an integer in 0..max or a sequence of such; it contributes itself or its elements in order; otherwise the ValueError names the out-of-range integer, the first bad element, or the unsupported argument |
| Memory.FirstBadArg | lib/mc6800sim/memory.py:66-74 | the loop takes the arguments in order: every argument before the index is accepted and the one at it, if any, is not |
| Memory.Flatten | lib/mc6800sim/memory.py:65-74 | the argument loop succeeds exactly when every argument is valid; the flattened list has one entry per value, each in 0..max; a failure is the error of the first argument that is not accepted |
| Memory.FlattenAppend | lib/mc6800sim/memory.py:65-74 | arguments are checked and flattened strictly left to right: flattening a1+a2 is flattening a1, then a2, the first error winning |
| Memory.FlattenArgs | lib/mc6800sim/memory.py:65-74 | the imperative argument loop, with its early exits on a bad value, computes exactly `Flatten` |
| Memory.Overwrite | lib/mc6800sim/memory.py:80 | the slice assignment replaces exactly the cells addr..addr+len-1 with the data and keeps every other cell |
| Memory.DepositResult | lib/mc6800sim/memory.py:48-81 | on success the deposited bytes are the flattened values in order and fit below $10000; a validation error is passed on unchanged; valid values that run past $FFFF give IndexError naming the last address |
| Memory.DepositOutcome | lib/mc6800sim/memory.py:48-81 | `deposit` succeeds exactly when every value is a byte and the last address exists; a bad value gives ValueError; valid values past $FFFF give IndexError naming the last address; the result has one byte per value |
| Memory.DepositThenBytes | lib/mc6800sim/memory.py:48-81 | after a successful deposit, `bytes(addr, len(data))` reads back exactly the deposited data |
| Memory.DepositOneByte | lib/mc6800sim/memory.py:48-81 | depositing one byte at an existing address always succeeds and changes that one cell only |
| Memory.Deposit | lib/mc6800sim/memory.py:48-81 | returns `DepositResult`; on success memory is the old memory overwritten at addr with the data; on failure memory is unchanged |
| Memory.EncodeWords | lib/mc6800sim/memory.py:113-116 | two bytes per word, the MSB at even offsets and the LSB after it |
| Memory.EncodeLoop | lib/mc6800sim/memory.py:113-116 | the byte-building loop of `depword` computes exactly `EncodeWords` |
| Memory.AsValues | lib/mc6800sim/memory.py:117 | the byte list `depword` hands to `deposit`, as one sequence argument, passes the byte check at any address and comes back as the same bytes in order |
| Memory.DepositOfEncoded | lib/mc6800sim/memory.py:117 | the inner `deposit` of `depword` can fail only on the range, with IndexError naming the last address |
| Memory.DepWordThenWords | lib/mc6800sim/memory.py:87-119 | after a successful `depword`, the data is two bytes per word and `words(addr, n)` reads the n deposited words back |
| Memory.DepWordResult | lib/mc6800sim/memory.py:87-119 | on success the bytes are the flattened words encoded MSB first and fit below $10000; a validation error is passed on unchanged; valid words whose bytes run past $FFFF give IndexError naming the last byte's address |
| Memory.DepWordOutcome | lib/mc6800sim/memory.py:87-119 | `depword` succeeds exactly when every value is an integer in 0..$FFFF and addr + 2n <= $10000; a bad value gives ValueError; otherwise IndexError names addr + 2n - 1; the result has two bytes per word |
| Memory.DepWord | lib/mc6800sim/memory.py:87-119 | returns `DepWordResult`; on success memory is overwritten with the encoded words and the result is what `bytes(addr, 2n)` reads back from the new memory; on failure memory is unchanged |
| OpArith.IncByte | lib/testmc/mc6800/opimpl.py:27-31 | the result is a byte congruent to byte+addend modulo $100 |
| OpArith.IncWord | lib/testmc/mc6800/opimpl.py:33-37 | the result is a word congruent to word+addend modulo $10000 |
| OpArith.IsNeg | lib/testmc/mc6800/opimpl.py:189-191 | for a byte, true exactly when it is >= $80; for a word with sign bit 15, exactly when it is >= $8000 |
| OpArith.IsZero | lib/testmc/mc6800/opimpl.py:193-194 | on a byte or a word, true exactly when none of its bits is set; `ByteDifferenceZero` and `ZeroAfterStep` say when that holds after SUB/CMP, INX, DEX and DECB |
| OpArith.ByteDifferenceZero | lib/testmc/mc6800/opimpl.py:267-269 | `iszero` of the wrapped difference is true exactly when minuend and subtrahend are equal |
| OpArith.ZeroAfterStep | lib/testmc/mc6800/opimpl.py:233-239 | `iszero` after INX holds exactly for X = $FFFF, after DEX exactly for X = $0001, and after the DECB decrement exactly for B = $01 |
| OpArith.Signed | lib/testmc/mc6800/opimpl.py:45-49 | the two's-complement reading of a byte: in -128..127 and congruent to the byte modulo $100 |
| OpArith.AddC | lib/testmc/mc6800/opimpl.py:258 | the PRG carry formula on bit 7 holds exactly when augend+addend > $FF |
| OpArith.AddH | lib/testmc/mc6800/opimpl.py:259 | the same formula on bit 3 holds exactly when the low nibbles sum past $F |
| OpArith.AddV | lib/testmc/mc6800/opimpl.py:260 | the overflow formula holds exactly when the signed sum leaves -128..127 |
| OpArith.SubC | lib/testmc/mc6800/opimpl.py:279 | the PRG borrow formula holds exactly when subtrahend > minuend, unsigned |
| OpArith.SubV | lib/testmc/mc6800/opimpl.py:280 | the subtract overflow formula holds exactly when the signed difference leaves -128..127 |
| OpArith.AddExamples | lib/testmc/mc6800/opimpl.py:241-262 | $7F+$01 = $80 with N, V and H set and C clear; $FF+$01 = $00 with C set and V clear |
| OpArith.SubExample | lib/testmc/mc6800/opimpl.py:267-282 | $00-$01 = $FF with N and C set and V clear |
| OpArith.DecbOverflow | lib/testmc/mc6800/opimpl.py:231-236 | "did bit 7 change" holds exactly for b = $00 and b = $80 |
| OpArith.BitAnd | lib/testmc/mc6800/opimpl.py:208-209 | `p & q` is at most each operand, and its low bit is set exactly when both low bits are |
| OpArith.BitAndBit | lib/testmc/mc6800/opimpl.py:208-209 | every bit k of `p & q` is set exactly when bit k is set in both p and q |
| OpArith.Asl | lib/testmc/mc6800/opimpl.py:222 | the 9-bit C:A after ASLA equals twice the old A |
| OpArith.Rol | lib/testmc/mc6800/opimpl.py:223 | C:A after ROLA equals twice the old A plus the old C |
| OpArith.Lsr | lib/testmc/mc6800/opimpl.py:224 | A:C after LSRA equals the old A, and bit 7 of A is clear |
| OpArith.Asr | lib/testmc/mc6800/opimpl.py:225 | ASRA halves the signed value of A, rounding down, and the bit shifted out goes to C |
| OpArith.Ror | lib/testmc/mc6800/opimpl.py:226 | A:C after RORA equals the old C:A |
| OpArith.RotateInverse | lib/testmc/mc6800/opimpl.py:222-226 | ROLA then RORA, and RORA then ROLA, give back the original A and C |
| OpArith.PackFlags | lib/testmc/mc6800/opimpl.py:133-141 | TPA always sets bits 7 and 6 of A |
| OpArith.TapAfterTpa | lib/testmc/mc6800/opimpl.py:125-141 | TAP after TPA restores all six flags |
| OpArith.UnpackFlags | lib/testmc/mc6800/opimpl.py:125-131 | TAP reads H, I, N, Z, V, C from bits 5..0 of A and ignores bits 7 and 6: packing the flags again gives back exactly the low six bits of A, with bits 7 and 6 set |
| OpArith.RelTarget | lib/testmc/mc6800/opimpl.py:56-60 | the branch target is congruent, modulo $10000, to the address after the offset byte plus the signed offset |
| OpArith.SelfLoop | lib/testmc/mc6800/opimpl.py:74-79 | a taken branch with offset $FE lands on the branch's own opcode |
| OpArith.WordAtWrapping | lib/testmc/mc6800/opimpl.py:51-54 | the word read at loc has its high byte from loc and its low byte from loc+1 wrapped; below $FFFF it is `word(loc)` |
| OpArith.PushedWord | lib/testmc/mc6800/opimpl.py:108-111 | pushing a word leaves the LSB at SP and the MSB at SP-1 (wrapped), and every other cell unchanged |
| OpArith.PoppedWord | lib/testmc/mc6800/opimpl.py:97-101 | the popped word's MSB comes from SP+1 and its LSB from SP+2 (wrapped) |
| OpArith.PopAfterPush | lib/testmc/mc6800/opimpl.py:97-111 | popping right after pushing gives back the pushed word and restores SP |
| OpImpl.InvalidOpcodeAt | lib/testmc/mc6800/opimpl.py:21-22 | the reported address is a word one before PC, wrapped, and the reported opcode is the byte stored there |
| OpImpl.InvalidOpcodeAsWritten | lib/testmc/mc6800/opimpl.py:21-22 | as written, the opcode is right and the address agrees with the wrapped one whenever PC is not $0000 |
| OpImpl.InvalidAddressAtWrap | lib/testmc/mc6800/opimpl.py:21-22 | with PC = $0000, the address as written is -1 while the opcode came from $FFFF |
| OpImpl.Machine.Invalid | lib/testmc/mc6800/opimpl.py:21-22 | raises `InvalidOpcode` for the byte just fetched and its address, changing nothing; the address is the corrected, wrapped one of "## Findings" ($FFFF where the source reports -1) |
| OpImpl.Machine.Nop | lib/testmc/mc6800/opcodes.py:11 | no register or flag changes |
| OpImpl.Machine.ReadByte | lib/testmc/mc6800/opimpl.py:39-43 | returns the byte at PC; PC advances by one, wrapped; nothing else changes |
| OpImpl.Machine.ReadSignedByte | lib/testmc/mc6800/opimpl.py:45-49 | returns the byte at PC read as two's complement; PC advances by one |
| OpImpl.Machine.ReadWord | lib/testmc/mc6800/opimpl.py:51-54 | returns the big-endian word at PC, its second byte wrapping to $0000 after $FFFF; PC advances by two |
| OpImpl.Machine.ReadRelOff | lib/testmc/mc6800/opimpl.py:56-60 | returns the branch target of the offset at PC; PC advances by one |
| OpImpl.Machine.ReadIndex | lib/testmc/mc6800/opimpl.py:62-66 | returns X plus the unsigned byte at PC, wrapped; PC advances by one |
| OpImpl.Machine.Jmp | lib/testmc/mc6800/opimpl.py:71 | PC becomes the extended operand; nothing else changes |
| OpImpl.Machine.Jmpx | lib/testmc/mc6800/opimpl.py:72 | PC becomes the indexed address; nothing else changes |
| OpImpl.Machine.BranchIf | lib/testmc/mc6800/opimpl.py:74-77 | the offset is consumed either way; PC becomes the target exactly when the predicate holds |
| OpImpl.Machine.Bra | lib/testmc/mc6800/opimpl.py:79 | always branches |
| OpImpl.Machine.Bcc | lib/testmc/mc6800/opimpl.py:80 | branches exactly when C is clear |
| OpImpl.Machine.Bcs | lib/testmc/mc6800/opimpl.py:81 | branches exactly when C is set |
| OpImpl.Machine.Bvc | lib/testmc/mc6800/opimpl.py:82 | branches exactly when V is clear |
| OpImpl.Machine.Bvs | lib/testmc/mc6800/opimpl.py:83 | branches exactly when V is set |
| OpImpl.Machine.Beq | lib/testmc/mc6800/opimpl.py:84 | branches exactly when Z is set |
| OpImpl.Machine.Bne | lib/testmc/mc6800/opimpl.py:85 | branches exactly when Z is clear |
| OpImpl.Machine.Bmi | lib/testmc/mc6800/opimpl.py:86 | branches exactly when N is set |
| OpImpl.Machine.Bpl | lib/testmc/mc6800/opimpl.py:87 | branches exactly when N is clear |
| OpImpl.Machine.PopByte | lib/testmc/mc6800/opimpl.py:92-95 | SP is incremented, then the byte it points to is returned |
| OpImpl.Machine.PopWord | lib/testmc/mc6800/opimpl.py:97-101 | returns `PoppedWord` at the old SP; SP goes up by two |
| OpImpl.Machine.PushByte | lib/testmc/mc6800/opimpl.py:103-106 | the byte is stored at SP through `deposit`, then SP goes down by one; no other cell changes |
| OpImpl.Machine.PushWord | lib/testmc/mc6800/opimpl.py:108-111 | memory becomes `PushedWord` (LSB at SP, MSB below it); SP goes down by two |
| OpImpl.Machine.Jsr | lib/testmc/mc6800/opimpl.py:114 | pushes the address after the operand word and jumps to the operand |
| OpImpl.Machine.Jsrx | lib/testmc/mc6800/opimpl.py:115 | pushes the address after the offset byte and jumps to the indexed address |
| OpImpl.Machine.Bsr | lib/testmc/mc6800/opimpl.py:116 | pushes the address after the offset byte and jumps to the branch target |
| OpImpl.Machine.Rts | lib/testmc/mc6800/opimpl.py:117 | PC becomes the popped word; SP goes up by two |
| OpImpl.Machine.Pula | lib/testmc/mc6800/opimpl.py:119 | A gets the byte at SP+1 and SP goes up by one; no flag changes |
| OpImpl.Machine.Psha | lib/testmc/mc6800/opimpl.py:120 | A is stored at SP and SP goes down by one; no flag changes |
| OpImpl.Machine.JsrThenRts | lib/testmc/mc6800/opimpl.py:114-117 | a JSR to an RTS returns after the JSR operand with SP and every other register restored |
| OpImpl.Machine.Tap | lib/testmc/mc6800/opimpl.py:125-131 | the six flags come from bits 5..0 of A; nothing else changes |
| OpImpl.Machine.Tpa | lib/testmc/mc6800/opimpl.py:133-141 | A gets the packed flags; the flags are unchanged |
| OpImpl.Machine.LogicNZV | lib/testmc/mc6800/opimpl.py:196-203 | returns the value; N and Z are set from it, V is cleared, and nothing else changes |
| OpImpl.Machine.ShiftFlags | lib/testmc/mc6800/opimpl.py:214-219 | returns the value; Z, N and C are set, and V = N xor C |
| OpImpl.Machine.Ldaa | lib/testmc/mc6800/opimpl.py:146 | A gets the immediate operand; N and Z from it, V cleared |
| OpImpl.Machine.Ldab | lib/testmc/mc6800/opimpl.py:147 | B gets the immediate operand; N and Z from it, V cleared |
| OpImpl.Machine.Ldaaz | lib/testmc/mc6800/opimpl.py:148 | A gets the byte at the direct address |
| OpImpl.Machine.Ldabz | lib/testmc/mc6800/opimpl.py:149 | B gets the byte at the direct address |
| OpImpl.Machine.Ldaam | lib/testmc/mc6800/opimpl.py:150 | A gets the byte at the extended address |
| OpImpl.Machine.Ldabm | lib/testmc/mc6800/opimpl.py:151 | B gets the byte at the extended address |
| OpImpl.Machine.Ldaax | lib/testmc/mc6800/opimpl.py:152 | A gets the byte at the indexed address |
| OpImpl.Machine.Ldabx | lib/testmc/mc6800/opimpl.py:153 | B gets the byte at the indexed address |
| OpImpl.Machine.Ldx | lib/testmc/mc6800/opimpl.py:154 | X gets the immediate word; N from bit 15 |
| OpImpl.Machine.LdxTarget | lib/testmc/mc6800/opimpl.py:156-159 | X gets the big-endian word at loc0, its second byte wrapping; N from bit 15, Z from X, V cleared |
| OpImpl.Machine.Ldxz | lib/testmc/mc6800/opimpl.py:161 | X is loaded from the direct address |
| OpImpl.Machine.Ldxm | lib/testmc/mc6800/opimpl.py:162 | X is loaded from the extended address |
| OpImpl.Machine.Ldxx | lib/testmc/mc6800/opimpl.py:163 | X is loaded from the indexed address |
| OpImpl.Machine.Clra | lib/testmc/mc6800/opimpl.py:165 | A is cleared; N, V and C clear, Z set |
| OpImpl.Machine.Clrb | lib/testmc/mc6800/opimpl.py:166 | B is cleared; N, V and C clear, Z set |
| OpImpl.Machine.Clrm | lib/testmc/mc6800/opimpl.py:167 | the byte at the extended address is cleared, and the flags as for CLRA |
| OpImpl.Machine.Clrx | lib/testmc/mc6800/opimpl.py:168 | the byte at the indexed address is cleared, and the flags as for CLRA |
| OpImpl.Machine.Staam | lib/testmc/mc6800/opimpl.py:170 | A is stored at the extended address; N and Z from A, V cleared |
| OpImpl.Machine.Stabm | lib/testmc/mc6800/opimpl.py:171 | B is stored at the extended address |
| OpImpl.Machine.Staax | lib/testmc/mc6800/opimpl.py:172 | A is stored at the indexed address |
| OpImpl.Machine.Stabx | lib/testmc/mc6800/opimpl.py:173 | B is stored at the indexed address |
| OpImpl.Machine.StxTarget | lib/testmc/mc6800/opimpl.py:175-181 | X is stored big-endian at target0 and target0+1 wrapped; loading a word back from target0 gives X |
| OpImpl.Machine.Stxz | lib/testmc/mc6800/opimpl.py:183 | X is stored at the direct address |
| OpImpl.Machine.Stxm | lib/testmc/mc6800/opimpl.py:184 | X is stored at the extended address |
| OpImpl.Machine.Anda | lib/testmc/mc6800/opimpl.py:208-209 | A becomes A & operand, with N and Z from it and V cleared |
| OpImpl.Machine.Asla | lib/testmc/mc6800/opimpl.py:222 | A and C become the `Asl` result; N, Z from A, V = N xor C |
| OpImpl.Machine.Rola | lib/testmc/mc6800/opimpl.py:223 | A and C become the `Rol` result |
| OpImpl.Machine.Lsra | lib/testmc/mc6800/opimpl.py:224 | A and C become the `Lsr` result |
| OpImpl.Machine.Asra | lib/testmc/mc6800/opimpl.py:225 | A and C become the `Asr` result |
| OpImpl.Machine.Rora | lib/testmc/mc6800/opimpl.py:226 | A and C become the `Ror` result |
| OpImpl.Machine.Decb | lib/testmc/mc6800/opimpl.py:231-236 | B goes down by one, wrapped; N and Z from the new B; V from `DecbOverflow` |
| OpImpl.Machine.Inx | lib/testmc/mc6800/opimpl.py:238 | X goes up by one, wrapped; only Z is affected |
| OpImpl.Machine.Dex | lib/testmc/mc6800/opimpl.py:239 | X goes down by one, wrapped; only Z is affected |
| OpImpl.Machine.AddHNZVC | lib/testmc/mc6800/opimpl.py:241-262 | returns the 8-bit sum and sets H, N, Z, V and C by the PRG formulas (their meaning is in `AddC`, `AddH`, `AddV`) |
| OpImpl.Machine.Adda | lib/testmc/mc6800/opimpl.py:264-265 | A becomes A + operand, wrapped, with the ADD flags |
| OpImpl.Machine.SubNZVC | lib/testmc/mc6800/opimpl.py:267-282 | returns the 8-bit difference and sets N, Z, V, and C only when asked |
| OpImpl.Machine.Suba | lib/testmc/mc6800/opimpl.py:284-285 | A becomes A - operand, wrapped, with the SUB flags |
| OpImpl.Machine.Cmpa | lib/testmc/mc6800/opimpl.py:287-288 | the SUB flags of A - operand, with A unchanged |
| OpImpl.Machine.CpxArg | lib/testmc/mc6800/opimpl.py:290-295 | Z is set exactly when X equals argh:argl; N and V come from the high bytes; C is kept |
| OpImpl.Machine.Cpx | lib/testmc/mc6800/opimpl.py:297-299 | compares X with the immediate word |
| OpImpl.Machine.Cpxz | lib/testmc/mc6800/opimpl.py:301-304 | compares X with the word at the direct address, the second byte wrapping |
| OpImpl.Machine.Cpxm | lib/testmc/mc6800/opimpl.py:306-309 | compares X with the word at the extended address |
| Opcodes.OpcodeKeys | lib/testmc/mc6800/opcodes.py:10-24 | the table has exactly its thirteen opcodes; $FF is not among them |
| Opcodes.ImplNamedAfterMnemonic | lib/testmc/mc6800/opcodes.py:10-24 | each entry's implementation is the function named after its mnemonic in lower case |
| Opcodes.MnemonicsDistinct | lib/testmc/mc6800/opcodes.py:10-24 | no two opcodes share a mnemonic |
| Opcodes.Instructions | lib/testmc/mc6800/opcodes.py:29-51 | the constants are the inverse of `OPCODES`: each mnemonic names its opcode, and there is no other constant |
| Opcodes.BuildInstructions | lib/testmc/mc6800/opcodes.py:50-51 | the attaching loop builds exactly `Instructions`, whatever order it visits the entries in |
| Opcodes.Effect | lib/testmc/mc6800/opcodes.py:10-24 | the dispatch reference: only BSR, JSR indexed and JSR extended write memory, and they write the return address (past the operand) LSB at SP and MSB at SP-1; every other cell is unchanged |
| Opcodes.EffectRegisters | lib/testmc/mc6800/opcodes.py:10-24 | no entry touches B, X or I; only RTS (SP+2) and the calls (SP-2) move SP; branches, jumps and calls leave A and every flag unchanged |
| Opcodes.Execute | lib/testmc/mc6800/opcodes.py:10-24 | running an entry's implementation has exactly the effect `Effect` gives for it |
| Opcodes.JsrThenRtsEffect | lib/testmc/mc6800/opimpl.py:114-117 | by the dispatch reference, JSR followed by RTS restores every register and advances PC past the operand |
| Opcodes.Step | lib/testmc/mc6800/opcodes.py:10-24 | fails exactly when the fetched opcode has no entry; it then reports that opcode and the address it was fetched from (the corrected, wrapped address of "## Findings") and changes only PC. Otherwise the state is the entry's `Effect` with PC past the opcode |
| SymTab.New | lib/testmc/symtab.py:47-50 | no records (`None`) gives an empty table |
| SymTab.Insert | lib/testmc/symtab.py:50 | a dict store: the size grows by one exactly when the name is new; the stored record is present, the name set gains its name, items with other names keep their places, and distinct names stay distinct |
| SymTab.FromRecords | lib/testmc/symtab.py:50 | the comprehension gives at most one item per record, each item one of the records, with distinct names and exactly the records' names |
| SymTab.Len | lib/testmc/symtab.py:56-57 | for items with distinct names, `len` is the number of distinct names |
| SymTab.Find | lib/testmc/symtab.py:50-54 | a dict lookup: it finds an item with the name exactly when some item has it |
| SymTab.Sym | lib/testmc/symtab.py:52-54 | returns the item with the name, or KeyError exactly when no item has it |
| SymTab.GetItem | lib/testmc/symtab.py:59-61 | succeeds exactly when `sym` does, with that Symbol's value; otherwise KeyError |
| SymTab.GetAttr | lib/testmc/symtab.py:63-70 | the same value as `t[name]`, but AttributeError for a missing name |
| SymTab.Iter | lib/testmc/symtab.py:72-79 | iteration agrees with lookup: it yields a name exactly when the table has it, and with distinct names each pair's value is what `t[name]` returns; one pair per item, in item order |
| SymTab.LastWith | lib/testmc/symtab.py:50 | the last record with the name, none exactly when no record has it |
| SymTab.FirstIndex | lib/testmc/symtab.py:50 | the position of the first record with the name: a record there has the name and none before it does |
| SymTab.FromRecordsItems | lib/testmc/symtab.py:47-50 | the dict built from the records has distinct names, each the last record with that name, exactly the records' names, in first-appearance order |
| SymTab.LastRecordWins | lib/testmc/symtab.py:50-54 | `sym(name)` on a built table gives the last record with that name, or KeyError if there is none |
| SymTab.LenCountsDistinctNames | lib/testmc/symtab.py:56-57 | `len` is the number of distinct names among the records |
| SymTab.IterOrder | lib/testmc/symtab.py:72-79 | iteration yields each record name once, with the value of its last record, in the order the names first appear |
| SymTab.EmptyTable | lib/testmc/symtab.py:47-50 | the table built from `None` is empty, and every lookup fails with KeyError or AttributeError |

## Left out

- The `MC6800` class, its constructor, its run loop and its instruction
  fetch are not part of this model. `Machine`'s constructor clears every
  register and cell. `Step` is one fetch-decode-execute step: `readbyte`,
  then a table lookup, then the implementation or `invalid`.
- `get_memory_seq` is abstract in the source. Here the memory is the
  machine's own array of $10000 byte cells.
- Python's negative indices and short slices: `byte` and `word` on
  addresses outside $0000-$FFFF, and `word($FFFF)` raising IndexError, are
  excluded by the addresses' types. `Memory.WordAt` requires addr < $FFFF
  and `Memory.Words` requires its last word to fit.
- `ValueError` and `IndexError` messages are not modelled. Each error
  keeps only the address and the cause it reports.
- `Memory.Value` and `Memory.Arg` reduce Python's `Integral` and
  `Sequence` tests to three kinds of argument. Strings, which are
  Sequences of non-integers, are covered by the non-integral case.
- `readsignedbyte`'s `struct.unpack('b', ...)` is modelled as
  two's-complement arithmetic on the byte.
- The flags are booleans. The source sometimes stores 0 or 1 in them, as
  in `m.V = 0` and `m.C = 0`. Python treats both alike in every use here.
- `symtab.py`: `Symbol.section` is an optional string and `value` an
  unbounded integer. `__getattr__` is consulted only for names that are
  not real attributes of the object. That shadowing is not modelled:
  `GetAttr` looks at the symbols alone.

- OpImpl.Machine.Invalid: reports the corrected address of "## Findings"
  (the opcode's own address, $FFFF after a fetch at $FFFF) instead of the
  source's unwrapped `pc - 1`, which is -1 in that one case.
  `InvalidOpcodeAsWritten` keeps the address as written, and
  `InvalidAddressAtWrap` shows where the two differ.
- Opcodes.Step: reports an invalid opcode through `Machine.Invalid`, so
  it too gives the corrected, wrapped address rather than -1 for an
  invalid opcode at $FFFF.

## Findings

| source | as written | input that shows it | evidently intended | confidence | as-written member | corrected member |
|---|---|---|---|---|---|---|
| lib/testmc/mc6800/opimpl.py:22 | `invalid` reads the opcode at `incword(pc, -1)` but reports the address as `pc - 1` without wrapping | an invalid opcode at $FFFF: after the fetch PC is $0000 and the reported address is -1 | report the address the opcode was fetched from, $FFFF | not executed | OpImpl.InvalidOpcodeAsWritten (shown by OpImpl.InvalidAddressAtWrap) | OpImpl.InvalidOpcodeAt |
