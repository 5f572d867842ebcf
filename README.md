# RISC-V64 assembler back end, modelled in Dafny

This project models the RISC-V64 back end of the Go assembler, `src/cmd/internal/obj/riscv64/asm.go`. That back end takes the instruction list of one function. First it rewrites each instruction (`progedit`). Then it lowers the whole function to real RISC-V instructions and pseudo-ops (`preprocess`). Finally it encodes every instruction into a little-endian 32-bit machine word and records the relocations (`assemble`). The model proves properties of each of these steps.

The model covers:

- **Numeric codec** (`codec.dfy`, module `Codec`):
  - `immFits` and `signExtend`;
  - `Split32BitImmediate`, which splits a 32-bit immediate into a LUI part and an ADDI part;
  - the exported immediate encoders `EncodeSImmediate`, `EncodeIImmediate`, `EncodeUImmediate` and `EncodeUJImmediate`.
- **Instruction records** (`progs.dfy`, module `Progs`). An instruction descriptor (`obj.Prog`) is a datatype. A function's instruction list is a `seq<Prog>`. A branch target (`Pcond`) is an index into that list.
- **Encoding table and encoders** (`encoding.dfy`, module `Encoding`):
  - `encodingForAs` and `encodingForP`;
  - every validator and every encoder;
  - the bit packers of the R, I, S, SB, U and UJ formats.
- **progedit and its helper maps** (`normalize.dfy`, module `Normalize`): `movtol`, `movtos`, `addrtoreg`, `InvertBranch` and `lowerjalr`.
- **Frame** (`frame.dfy`, module `Frame`):
  - the text flags and the frame layout;
  - `containsCall` and `stackOffset`;
  - the prologue and the stack-split check (`stacksplit`);
  - the WRAPPER fix-up of `g.panic.argp`.
- **Rewriting and splitting passes of preprocess** (`lowering.dfy`, module `Lowering`):
  - the lowering of MOV, CALL, JMP, RET and FNE;
  - `jalrToSym` and `loadImmIntoRegTmp`;
  - the splitting of large immediates.
- **Pass machinery** (`splice.dfy`, module `Splice`). A block of records replaces one record or is linked in after it. Every target is shifted to match. A pass walks the list and continues after each block.
- **Relaxation and resolution** (`relax.dfy`, module `Relax`):
  - `setpcs`;
  - the relaxation loop: a far branch becomes an inverted branch over a JAL, and a far JAL becomes AUIPC+JALR;
  - the resolution of branch targets into PC-relative offsets;
  - the final validation walk.
- **preprocess as a whole** (`preprocess.dfy`, module `Preprocess`). It is one function on values, composed stage by stage in the order of the source.
- **assemble** (`assemble.dfy`, module `Assemble`): the relocations of JALR and AUIPC, the encoding walk, and the little-endian output.
- **Per-symbol state** (`symbol.dfy`, class `Symbols.Symbol`):
  - the fields the source updates in place: the instruction list, `Func.Args`, `Func.Locals`, `Size`, `P` and `R`, and the diagnostics reported through `ctxt.Diag`;
  - imperative methods with the source's loops (`setpcs`, the stack-offset loop, the passes, the relaxation loop, resolution, validation and assemble), each proved equal to the value-level definition in the modules above.

A panic in the source (`panic`, a nil dereference, an index out of range) is a `Failure` in the model. A diagnostic that the source reports and then carries on from is a string appended to the list of diagnostics.

The source's evenness check on jump offsets (`wantEvenJumpOffset`) tests `offset % 1`, which is never non-zero. The model keeps that test as written, and `Encoding.WantEvenJumpOffsetNeverReports` proves that it never reports.

The doc comment of `Split32BitImmediate` (asm.go:1172-1177) says that it splits a signed 32-bit immediate into a `high` part for LUI and a `low` part to add after it. The code wraps for immediates from 0x7fff_f800 up: `high` becomes -2^19, and `high*4096 + low` then differs from the immediate by 2^32. The model follows the code here (see `Codec.SplitWrapsAtTop` and the note under "Left out").

The model departs from the code in one place: the store of a register-to-memory MOV (asm.go:645-653). The store as written is modelled and its defect shown (see "Findings"). The rewriting pass, and so preprocess as a whole, uses the corrected store (see the `Lowering.LowerStore` line under "Left out").

## Model

| member | source | states |
|---|---|---|
| Codec.ImmFits64IsInt64 | src/cmd/internal/obj/riscv64/asm.go:1257-1262 | Of `Codec.ImmFits`: Fitting in 64 bits is exactly being an int64 value. |
| Codec.ImmFitsWider | src/cmd/internal/obj/riscv64/asm.go:1257-1262 | Of `Codec.ImmFits`: An immediate that fits in n bits fits in any wider width up to 64. |
| Codec.SignExtend | src/cmd/internal/obj/riscv64/asm.go:1159-1171 | The result fits in `bit` bits and agrees with the input modulo 2^bit. An input that already fits is returned unchanged. |
| Codec.Wrap32 | src/cmd/internal/obj/riscv64/asm.go:1159-1171 | Truncation to int32: the result fits in 32 bits and agrees with the input modulo 2^32. |
| Codec.Wrap32IsSignExtend | src/cmd/internal/obj/riscv64/asm.go:1159-1171 | Truncation to int32 is sign extension from bit 32. |
| Codec.Split32BitImmediate | src/cmd/internal/obj/riscv64/asm.go:1179-1207 | Fails exactly when the immediate does not fit in 32 bits. The low part fits in 12 bits and the high part in 20. The high part is 0 exactly when the immediate fits in 12 bits, and then the low part is the immediate. `high*4096 + low` equals the immediate below 0x7fff_f800, and the immediate minus 2^32 from there up. |
| Codec.Split32Recombines | src/cmd/internal/obj/riscv64/asm.go:1179-1207 | For every 32-bit immediate, `high*4096 + low` truncated to 32 bits is the immediate. |
| Codec.Split32UsesSignExtend | src/cmd/internal/obj/riscv64/asm.go:1192-1206 | The low part is the sign extension of the low 12 bits. The high part is the sign extension to 20 bits of the upper bits plus the rounding carry. |
| Codec.SplitWrapsAtTop | src/cmd/internal/obj/riscv64/asm.go:1199-1206 | At 0x7fff_f800 the high part wraps to -2^19, so `high*4096 + low` is not the immediate. |
| Codec.EncodeSImmediate | src/cmd/internal/obj/riscv64/asm.go:1405-1411 | Fails exactly when the immediate does not fit in 12 bits. Otherwise imm[4:0] lands in bits 11:7 and imm[11:5] in bits 31:25, and nothing else is set. |
| Codec.SImmediateRoundTrip | src/cmd/internal/obj/riscv64/asm.go:1405-1411 | Reading the two S-type fields back gives the immediate. |
| Codec.EncodeIImmediate | src/cmd/internal/obj/riscv64/asm.go:1489-1495 | Fails exactly when the immediate does not fit in 12 bits. Otherwise it is the immediate shifted to bit 20, a 32-bit value. |
| Codec.EncodeUImmediate | src/cmd/internal/obj/riscv64/asm.go:1497-1503 | Fails exactly when the immediate does not fit in 20 bits. Otherwise it is the immediate shifted to bit 12, a 32-bit value. |
| Codec.EncodeUJImm | src/cmd/internal/obj/riscv64/asm.go:1514-1520 | The low 12 bits are clear. Decoding the J-type layout recovers bits 20:1 of the offset. |
| Codec.EncodeUJImmediate | src/cmd/internal/obj/riscv64/asm.go:1522-1527 | Fails exactly when the offset does not fit in 21 bits. Otherwise the word decodes to bits 20:1 of the offset's two's complement value. |
| Encoding.Length | src/cmd/internal/obj/riscv64/asm.go:1565-1607 | An encoded length is 0 or 4 bytes. It is 0 exactly for pseudo-ops and the bad encoding. |
| Encoding.TableEntry | src/cmd/internal/obj/riscv64/asm.go:1751-1767 | A code with base 0 below the architecture-specific range, or with the RISC-V base at or above it, selects its own table entry. |
| Encoding.EncodingForP | src/cmd/internal/obj/riscv64/asm.go:1751-1767 | At most one diagnostic, and exactly one when the encoding is the bad one. |
| Encoding.EncodingForPSelects | src/cmd/internal/obj/riscv64/asm.go:1614-1767 | Without a diagnostic, the encoding is the table entry of the code's low bits. A RISC-V or independent mnemonic that has a table entry gets that entry and no diagnostic. |
| Encoding.WantEvenJumpOffsetNeverReports | src/cmd/internal/obj/riscv64/asm.go:1285-1289 | The evenness check never reports anything. |
| Encoding.PackR | src/cmd/internal/obj/riscv64/asm.go:1324-1337 | With fields in range, the word holds opcode, rd, funct3 (OR the rounding mode), rs1, rs2 (OR the fixed rs2), and funct7 at their R-type positions. |
| Encoding.PackI | src/cmd/internal/obj/riscv64/asm.go:1374-1383 | With fields in range, the word holds opcode, rd, funct3 and rs1, with the low 12 bits of the immediate in bits 31:20. |
| Encoding.PackS | src/cmd/internal/obj/riscv64/asm.go:1413-1426 | With fields in range, the word holds opcode, funct3, rs1 and rs2, with the 12-bit immediate split over bits 31:25 and 11:7. |
| Encoding.PackSB | src/cmd/internal/obj/riscv64/asm.go:1445-1461 | With fields in range, the word holds opcode, funct3, rs1 and rs2. The B-type layout decodes to bits 12:1 of the offset. |
| Encoding.PackU | src/cmd/internal/obj/riscv64/asm.go:1475-1487 | With fields in range, the word holds opcode and rd, and its bits 31:12 hold the 20-bit immediate (`imm << 12` under the mask). |
| Encoding.PackUJ | src/cmd/internal/obj/riscv64/asm.go:1529-1537 | With fields in range, the word holds opcode and rd. The J-type layout decodes to bits 20:1 of the offset. |
| Encoding.RegVal | src/cmd/internal/obj/riscv64/asm.go:1209-1214 | The register number relative to min, a 5-bit value. It fails (the source panics) exactly when the register is outside [min, max]. |
| Encoding.Immi | src/cmd/internal/obj/riscv64/asm.go:1265-1273 | Fails exactly when the operand is not a constant or does not fit in nbits. |
| Encoding.ValidatedRecordEncodes | src/cmd/internal/obj/riscv64/asm.go:1291-1557 | Of `Encoding.Encode`, `Encoding.EncodeR`, `Encoding.EncodeI`, `Encoding.EncodeS`, `Encoding.Validate` and `Encoding.ValidateP`: A record whose validator reports nothing is encoded without a panic, provided that: its mnemonic has fields, the unvalidated branch register `Reg` is an integer register, and a fixed rs2 field meets register 0. |
| Encoding.ValidatedEncodes | src/cmd/internal/obj/riscv64/asm.go:1291-1557 | Of `Encoding.Encode` and `Encoding.Validate`: The same, for every encoding other than the pseudo-op and bad encodings. |
| Normalize.MovToL | src/cmd/internal/obj/riscv64/asm.go:146-169 | Defined exactly on the MOV mnemonics. |
| Normalize.MovToLPreservesWidth | src/cmd/internal/obj/riscv64/asm.go:146-169 | Each MOV maps to an integer or float load of the same width and signedness. |
| Normalize.MovToS | src/cmd/internal/obj/riscv64/asm.go:172-189 | Defined exactly on the MOV mnemonics other than MOVBU, MOVHU and MOVWU. |
| Normalize.MovToSPreservesWidth | src/cmd/internal/obj/riscv64/asm.go:172-189 | Each such MOV maps to an integer or float store of the same width. |
| Normalize.AddrToReg | src/cmd/internal/obj/riscv64/asm.go:192-198 | AUTO and PARAM operands are addressed from SP, and every other operand from its own register. |
| Normalize.InvertBranch | src/cmd/internal/obj/riscv64/asm.go:358-375 | Defined exactly on the six conditional branches. The result is another conditional branch. |
| Normalize.InvertBranchInvolutive | src/cmd/internal/obj/riscv64/asm.go:358-375 | Inverting twice gives the branch back. |
| Normalize.InvertBranchPairs | src/cmd/internal/obj/riscv64/asm.go:358-375 | BEQ/BNE, BLT/BGE and BLTU/BGEU are the inverse pairs, in both directions. |
| Normalize.LowerJalr | src/cmd/internal/obj/riscv64/asm.go:78-99 | The target register moves to From3 and its offset to a constant From. The link register moves to To. Op, target and marks are kept. |
| Normalize.ProgEditExpandsBinary | src/cmd/internal/obj/riscv64/asm.go:205-243 | Of `Normalize.ProgEdit`: A binary instruction without a third operand gets the destination register there. With a constant source it becomes its immediate variant. Nothing else changes and nothing is reported. |
| Normalize.ProgEditImmediateVariant | src/cmd/internal/obj/riscv64/asm.go:220-243 | Of `Normalize.ProgEdit`: A register mnemonic with a constant source becomes its immediate variant, an I-type instruction. |
| Normalize.ImmediateVariantIsIType | src/cmd/internal/obj/riscv64/asm.go:220-243 | Every immediate variant is one of the nine I-type arithmetic mnemonics. |
| Normalize.EditSpecialPlain | src/cmd/internal/obj/riscv64/asm.go:246-341 | Of `Normalize.EditSpecial`: A mnemonic that none of the special cases names passes unchanged. |
| Normalize.ProgEditSetOnZero | src/cmd/internal/obj/riscv64/asm.go:311-320 | Of `Normalize.ProgEdit`: SEQZ becomes SLTIU $1 and SNEZ becomes SLTU with ZERO, with the destination kept. |
| Normalize.ProgEditLowersJumps | src/cmd/internal/obj/riscv64/asm.go:248-281 | Of `Normalize.ProgEdit`: JMP to a register-memory operand and CALL to a register become JALR: the link register is ZERO or RA, the target register is in From3, and its offset is in From. |
| Normalize.ProgEditJumpToLabel | src/cmd/internal/obj/riscv64/asm.go:248-255 | Of `Normalize.ProgEdit`: JMP to a label becomes JAL with ZERO as its link register. |
| Normalize.ProgEditIdempotent | src/cmd/internal/obj/riscv64/asm.go:202-342 | Of `Normalize.ProgEdit`: Applying progedit to its own quiet output changes nothing, with two exceptions. The JALR and FSQRT forms move operands again on every run. A SNEZ with a constant operand becomes SLTU with a constant, which a second run turns into SLTIU. |
| Normalize.ProgEditOfNormal | src/cmd/internal/obj/riscv64/asm.go:209-243 | Of `Normalize.ProgEdit`: On a record already in ternary and immediate form, progedit is its opcode-specific part. |
| Normalize.EditSpecialIdempotent | src/cmd/internal/obj/riscv64/asm.go:246-341 | Of `Normalize.EditSpecial`: The opcode-specific rewrite leaves a record in ternary and immediate form, and applying it again changes nothing. |
| Normalize.EditSpecialJumpIdempotent | src/cmd/internal/obj/riscv64/asm.go:248-268 | Of `Normalize.EditSpecial`: A JMP that is not lowered to JALR is stable under a second rewrite. |
| Normalize.EditSpecialSystemIdempotent | src/cmd/internal/obj/riscv64/asm.go:286-309 | Of `Normalize.EditSpecial`: UNDEF, SCALL, ECALL, EBREAK and the counter reads end as a system instruction that a second rewrite keeps. |
| Normalize.EditSpecialSystem | src/cmd/internal/obj/riscv64/asm.go:286-309 | Of `Normalize.EditSpecial`: ECALL, EBREAK and the counter reads take the CSR path. |
| Normalize.SystemOpIdempotent | src/cmd/internal/obj/riscv64/asm.go:295-309 | Of `Normalize.SystemOp`: Setting the CSR immediate and the ZERO defaults is idempotent and keeps the mnemonic. |
| Normalize.ProgEditCanonicalNoop | src/cmd/internal/obj/riscv64/asm.go:202-342 | Of `Normalize.ProgEdit`: An I-type arithmetic instruction with its third operand is left as it is. |
| Normalize.ProgEditFloat | src/cmd/internal/obj/riscv64/asm.go:321-341 | Of `Normalize.ProgEdit`: FNEGS and FNEGD become FSGNJNS and FSGNJND with the source register as both inputs. FSQRTS and FSQRTD move the source to the second input and take F0 as the first. The float-to-int conversions get `Scond = 1`. The destination and target are kept and nothing is reported. |
| Frame.SetNoFrameKeepsFlags | src/cmd/internal/obj/riscv64/asm.go:439-442 | Setting NOFRAME sets it and keeps NOSPLIT and NEEDCTXT. |
| Frame.FrameLayout | src/cmd/internal/obj/riscv64/asm.go:437-451 | A negative declared size means NOFRAME and an empty frame. RA is saved exactly when there is a call and no NOFRAME. The size is the declared size plus 8 when RA is saved. NOSPLIT and NEEDCTXT are kept. |
| Frame.FrameEmpty | src/cmd/internal/obj/riscv64/asm.go:437-451 | The frame is empty exactly when the declared size is at most 0 and RA is not saved. |
| Frame.StackOffsetPlacesOperands | src/cmd/internal/obj/riscv64/asm.go:66-75 | Of `Frame.StackOffset`: Only offsets change. A local of the declared frame ends inside the frame, above the RA slot. An argument ends above the caller's RA slot. Other operands are untouched. |
| Frame.StackOffsetAll | src/cmd/internal/obj/riscv64/asm.go:566-576 | Rebasing keeps the list's length. What changes is stated by `Frame.StackOffsetAllKeeps` and, for each operand, `Frame.StackOffsetPlacesOperands`. |
| Frame.StackOffsetAllKeeps | src/cmd/internal/obj/riscv64/asm.go:566-576 | Rebasing every record changes operand offsets only, and keeps every target inside the list. |
| Frame.WrapperCheck | src/cmd/internal/obj/riscv64/asm.go:486-564 | Nine records are added. |
| Frame.WrapperHead | src/cmd/internal/obj/riscv64/asm.go:505-519 | The head of the fix-up is three records. Their content is stated by `Frame.WrapperCheckShape`. |
| Frame.WrapperTail | src/cmd/internal/obj/riscv64/asm.go:521-564 | The tail of the fix-up is six records. Their content is stated by `Frame.WrapperCheckShape`. |
| Frame.WrapperCheckShape | src/cmd/internal/obj/riscv64/asm.go:486-564 | The old records stay in order, shifted. The head (load of g.panic, BNE to the adjustment block, NOP) follows the prologue. The tail at the end of the list loads argp, compares it with FP (stacksize+8), branches back to the NOP when they differ, and otherwise stores SP+8 and jumps back. |
| Frame.WrapperCheckClosed | src/cmd/internal/obj/riscv64/asm.go:486-564 | The fix-up keeps every target inside the list. |
| Frame.StackCheck | src/cmd/internal/obj/riscv64/asm.go:1019-1124 | The comparison with the guard has 2, 3 or 7 records, for a small, big or huge frame. |
| Frame.StackCheckCompares | src/cmd/internal/obj/riscv64/asm.go:1034-1124 | The comparisons of each regime. A small frame ends with BLTU A0, SP. A big frame computes A1 = SP - framesize by ADDI, then BLTU A0, A1. A huge frame loads StackPreempt into A1 and branches on BEQ A0, A1 to the growing call. It then computes A1 = SP + StackGuard - A0 by ADDI and SUB, loads framesize + StackGuard - StackSmall into A0, and ends with BLTU A0, A1. |
| Frame.StackCheckShape | src/cmd/internal/obj/riscv64/asm.go:1019-1124 | It loads the guard from g (offset 24 for a C function, 16 otherwise) into A0. Its BEQ goes to the preemption path and every other conditional branch to the end. Nothing else has a target. |
| Frame.MorestackCall | src/cmd/internal/obj/riscv64/asm.go:1126-1143 | AUIPC+ADDI+JALR through T0 to morestackc, morestack_noctxt or morestack, chosen by the C-function and NEEDCTXT flags. |
| Frame.StackSplit | src/cmd/internal/obj/riscv64/asm.go:1013-1156 | Empty exactly for a zero frame. Otherwise it has the comparison's length plus five records. |
| Frame.StackSplitShape | src/cmd/internal/obj/riscv64/asm.go:1013-1156 | The guard load comes first, then the morestack call. A JAL jumps back to the function's start and a NOP closes the block. Branches go to the call or past the block, and every target stays inside it. |
| Frame.StackSplitKeepsSP | src/cmd/internal/obj/riscv64/asm.go:1013-1156 | The stack-split block does not change the SP adjustment. |
| Frame.Prologue | src/cmd/internal/obj/riscv64/asm.go:455-484 | Unless NOSPLIT is set, the stack-split block comes first. When the frame is not empty, the next record is `ADDI $-framesize, SP, SP` with SP adjustment framesize. When RA is saved, the last record stores RA at 0(SP). A NOSPLIT function with an empty frame gets no prologue. |
| Frame.PrologueAllocatesFrame | src/cmd/internal/obj/riscv64/asm.go:455-484 | The prologue's SP adjustments sum to the frame size. The epilogue's adjustments before its JALR undo them. |
| Frame.PrologueClosed | src/cmd/internal/obj/riscv64/asm.go:455-484 | The prologue's targets stay inside it. |
| Lowering.SplitLoadsImmediate | src/cmd/internal/obj/riscv64/asm.go:395-417 | LUI high followed by ADDIW low loads exactly the 32-bit immediate that was split. |
| Lowering.LuiAddiwWraps | src/cmd/internal/obj/riscv64/asm.go:395-417 | LUI then ADDIW computes `high*4096 + low` truncated to 32 bits. |
| Lowering.LoadImmIntoRegTmp | src/cmd/internal/obj/riscv64/asm.go:402-417 | LUI then ADDIW, both into TMP, the second reading TMP. Together they load the same value as the given parts. The first keeps the record's target. |
| Lowering.JalrToSym | src/cmd/internal/obj/riscv64/asm.go:106-144 | A CALL or JMP becomes AUIPC (with the symbol and an I-type relocation mark), ADDI and JALR through TMP with the given link register. Any other record is kept and reported. |
| Lowering.LowerLoad | src/cmd/internal/obj/riscv64/asm.go:589-618 | A stack or register-based load becomes one `L $c, Rs, Rd`: the load that `movtol` picks, the offset in From, the base register from `addrtoreg` in From3. A non-register destination is reported. A global load becomes AUIPC with the symbol and offset, marked for an I-type PC-relative relocation, into Rd, then `L $0, Rd, Rd`. Any other name is reported and the record kept. The target is kept and no added record is rewritable. |
| Lowering.LowerRegMove | src/cmd/internal/obj/riscv64/asm.go:620-636 | MOV becomes `ADDI $0, Ra, Rb`. MOVF and MOVD become `FSGNJS Ra, Ra, Rb` and `FSGNJD Ra, Ra, Rb`. Any other register move is reported and left alone (exactly one record, reported iff the mnemonic is not MOV, MOVF or MOVD). |
| Lowering.StoreAsWritten | src/cmd/internal/obj/riscv64/asm.go:645-653 | As written, the offset comes from the source register operand and From3 is the destination's base register. |
| Lowering.StoreAsWrittenLosesSource | src/cmd/internal/obj/riscv64/asm.go:645-653 | MOV X5, 8(X6) becomes SD X6, 0(X6): the source register and the offset are lost. |
| Lowering.StoreLowering | src/cmd/internal/obj/riscv64/asm.go:638-653 | The store the comment at that place describes: the store mnemonic of the MOV, the source register in From3, the destination offset in From, and the base register (SP for stack names) in To. |
| Lowering.LowerStore | src/cmd/internal/obj/riscv64/asm.go:638-676 | Fails exactly for an unsigned store to a name that `movtos` is then asked to map. A stack or register-based store is exactly the corrected `Lowering.StoreLowering`. A global store becomes AUIPC into TMP, marked for an S-type PC-relative relocation, then the store of `movtos` from the source register at 0(TMP). Other names are kept and reported. It is quiet exactly for a signed mnemonic and a name it handles. |
| Lowering.LowerConst | src/cmd/internal/obj/riscv64/asm.go:677-715 | A constant load is one or two lowered records that keep the target. |
| Lowering.LowerConstLoadsValue | src/cmd/internal/obj/riscv64/asm.go:677-715 | For a 32-bit constant, ADDIW alone is used exactly when it fits in 12 bits. Otherwise LUI and ADDIW into the destination load exactly the constant. |
| Lowering.LowerAddr | src/cmd/internal/obj/riscv64/asm.go:717-756 | A global address becomes AUIPC with the symbol and offset into Rd, marked for an I-type relocation, then `ADDI $0, Rd, Rd`. A stack or register-based address becomes one `ADDI $off, base, Rd`, with the base from `addrtoreg`. Any other name is kept. It is quiet exactly for a MOV into a register from a handled name. |
| Lowering.LowerMov | src/cmd/internal/obj/riscv64/asm.go:587-759 | Dispatches on the source operand: a memory source is LowerLoad, register to register is LowerRegMove, register to memory is LowerStore, a constant is LowerConst, an address is LowerAddr. Any other form is kept and reported. The result is one or two records that keep the target. When nothing is reported, all are lowered. |
| Lowering.Epilogue | src/cmd/internal/obj/riscv64/asm.go:778-812 | RET becomes: the RA reload when RA is saved, then, when the frame is not empty, `ADDI $framesize, SP, SP` with SP adjustment -framesize, and last `JALR $0, RA` to ZERO with SP adjustment framesize. |
| Lowering.EpilogueBalances | src/cmd/internal/obj/riscv64/asm.go:778-812 | The records before the JALR pop exactly the frame, and the whole block's adjustments sum to 0. |
| Lowering.LowerFne | src/cmd/internal/obj/riscv64/asm.go:813-839 | FNES and FNED become FEQS or FEQD on the same operands, then `XORI $1, dst, dst`: two lowered records. A non-register output is reported. |
| Lowering.RewriteOne | src/cmd/internal/obj/riscv64/asm.go:581-841 | Only a MOV can panic. A record that is not rewritable is kept. A rewritten record yields 1 to 3 records that keep its target and whose tail is not rewritable. |
| Lowering.RewritePassClosed | src/cmd/internal/obj/riscv64/asm.go:581-841 | Of `Lowering.RewritePass`: The pass keeps targets inside the list and never shortens it. |
| Lowering.RewritePassLowers | src/cmd/internal/obj/riscv64/asm.go:581-841 | Of `Lowering.RewritePass`: A pass that reports nothing leaves no MOV, RET, FNE, CALL to memory or JMP to an external symbol. |
| Lowering.RegisterForm | src/cmd/internal/obj/riscv64/asm.go:843-880 | The register form of ADDI, ANDI, ORI and XORI, whose immediate variant it is. |
| Lowering.SplitOne | src/cmd/internal/obj/riscv64/asm.go:843-925 | A report is made exactly for a splittable record whose immediate does not fit in 32 bits. A record that is not split is kept. |
| Lowering.SplitArith | src/cmd/internal/obj/riscv64/asm.go:847-880 | LUI and ADDIW into TMP, then the register form of the operation on TMP. |
| Lowering.SplitLoad | src/cmd/internal/obj/riscv64/asm.go:882-903 | LUI and ADDIW into TMP, ADD of the base, then the load at 0(TMP). |
| Lowering.SplitStore | src/cmd/internal/obj/riscv64/asm.go:904-925 | LUI and ADDIW into TMP, ADD of the base, then the store at 0(TMP). |
| Lowering.SplitOnePreservesOperation | src/cmd/internal/obj/riscv64/asm.go:843-925 | A 32-bit immediate beyond 12 bits is loaded into TMP exactly, and the last record performs the original operation. |
| Lowering.SplitOneFits | src/cmd/internal/obj/riscv64/asm.go:843-925 | A split that reports nothing leaves only immediates of 12 bits. |
| Lowering.SplitPassFits | src/cmd/internal/obj/riscv64/asm.go:843-925 | After a quiet splitting pass, every splittable record has a 12-bit immediate. |
| Lowering.SplitPassClosed | src/cmd/internal/obj/riscv64/asm.go:843-925 | The splitting pass keeps targets inside the list and never shortens it. |
| Lowering.SplitPass | src/cmd/internal/obj/riscv64/asm.go:843-925 | The splitting pass never panics: an immediate that is too wide is only reported. `Lowering.SplitPassFits` and `Lowering.SplitPassClosed` state its output. |
| Splice.ReplaceAt | src/cmd/internal/obj/riscv64/asm.go:581-925 | The block takes the record's place. Every target beyond it moves by the block's growth. |
| Splice.InsertAfter | src/cmd/internal/obj/riscv64/asm.go:457-484 | The block follows record i. Every target beyond i moves by the block's length. |
| Splice.ReplaceAtClosed | src/cmd/internal/obj/riscv64/asm.go:581-925 | Replacing a record keeps every target inside the list. |
| Splice.InsertAfterClosed | src/cmd/internal/obj/riscv64/asm.go:457-564 | Linking a block in keeps every target inside the list. |
| Splice.PassTotal | src/cmd/internal/obj/riscv64/asm.go:843-925 | A pass whose step never panics succeeds. |
| Splice.PassKeepsDiags | src/cmd/internal/obj/riscv64/asm.go:581-925 | A pass only appends diagnostics. |
| Splice.PassClosed | src/cmd/internal/obj/riscv64/asm.go:581-925 | A pass whose steps keep targets keeps every target inside the list and never shortens it. |
| Splice.PassEstablishes | src/cmd/internal/obj/riscv64/asm.go:581-925 | A quiet pass whose quiet steps establish a property on their blocks establishes it on the whole list. |
| Relax.CodeSize | src/cmd/internal/obj/riscv64/asm.go:350-355 | The size of a list is a nonnegative multiple of 4. |
| Relax.SetPcsPlaces | src/cmd/internal/obj/riscv64/asm.go:350-355 | Only the PCs change. They are aligned, and each is the previous one plus the previous record's length. |
| Relax.SetPcsExact | src/cmd/internal/obj/riscv64/asm.go:350-355 | Each record's PC is the size of the records before it. |
| Relax.SetPcsClosed | src/cmd/internal/obj/riscv64/asm.go:350-355 | Setting PCs keeps every target inside the list. |
| Relax.SetPcs | src/cmd/internal/obj/riscv64/asm.go:350-355 | Setting PCs keeps the list's length. `Relax.SetPcsPlaces` and `Relax.SetPcsExact` state the PCs. |
| Relax.WeightAfterReplace | src/cmd/internal/obj/riscv64/asm.go:935-976 | Each replacement lowers the walk's measure, so one walk ends. |
| Relax.RelaxFromIdle | src/cmd/internal/obj/riscv64/asm.go:929-980 | Of `Relax.RelaxFrom`: A walk over records whose branches and jumps are near changes nothing. |
| Relax.RelaxFromSettled | src/cmd/internal/obj/riscv64/asm.go:929-980 | Of `Relax.RelaxFrom`: A walk that sets no rescan changed nothing, and every branch and jump it saw is near. |
| Relax.RelaxFromClosed | src/cmd/internal/obj/riscv64/asm.go:935-976 | Of `Relax.RelaxFrom`: The walk keeps every target inside the list. |
| Relax.LongBranchLinks | src/cmd/internal/obj/riscv64/asm.go:941-951 | Of `Relax.LongBranch`: a far conditional branch becomes its inverse followed by JAL ZERO. The inverse targets the record just past the JAL, or has no target when the branch was last. The JAL targets the branch's old target, shifted by the growth. The next record is the old next record, shifted. |
| Relax.LongJumpLinks | src/cmd/internal/obj/riscv64/asm.go:959-973 | Of `Relax.LongJump`: a far JAL becomes AUIPC into TMP, carrying the old target shifted by the growth, then `JALR $0, TMP` linking the JAL's register. The JALR has no target. The next record is the old next record, shifted. |
| Relax.RelaxFromRewrites | src/cmd/internal/obj/riscv64/asm.go:929-976 | Of `Relax.RelaxFrom`: the walk never shortens the list, keeps the mnemonics before its start, and maps the mnemonics from its start in order. Each record is kept, or is a conditional branch followed by JAL (or by AUIPC+JALR once the JAL itself is rewritten), or is a JAL followed by AUIPC+JALR. |
| Relax.WalkRewritesGrows | src/cmd/internal/obj/riscv64/asm.go:929-976 | A mnemonic sequence obtained by such rewriting is at least as long as the original. |
| Relax.RelaxRoundsStep | src/cmd/internal/obj/riscv64/asm.go:929-980 | Of `Relax.RelaxRounds`: A round sets the PCs, walks once, and either rescans or stops. |
| Relax.RelaxRoundSettles | src/cmd/internal/obj/riscv64/asm.go:929-980 | Of `Relax.RelaxRounds`: A round without a rescan leaves exact PCs and only near branches and jumps. |
| Relax.RelaxRoundsSettle | src/cmd/internal/obj/riscv64/asm.go:929-980 | Of `Relax.RelaxRounds`: After the loop, the PCs are exact and every branch and jump is near its target. |
| Relax.RelaxRoundsClosed | src/cmd/internal/obj/riscv64/asm.go:929-980 | Of `Relax.RelaxRounds`: The loop keeps every target inside the list. |
| Relax.RelaxRoundsKeepsDiags | src/cmd/internal/obj/riscv64/asm.go:929-980 | Of `Relax.RelaxRounds`: The loop only appends diagnostics. |
| Relax.NearFits | src/cmd/internal/obj/riscv64/asm.go:941-961 | A near branch offset fits in 13 bits and a near jump offset in 21. |
| Relax.ResolveStep | src/cmd/internal/obj/riscv64/asm.go:985-1005 | Panics exactly for a branch or JAL to memory, a label without a target, or an AUIPC to a label with no record after it. Otherwise only the record and its successor's From offset change. |
| Relax.ResolveStepJump | src/cmd/internal/obj/riscv64/asm.go:987-993 | A branch or JAL to a label gets the PC distance to its target as a constant. |
| Relax.ResolveStepAuipc | src/cmd/internal/obj/riscv64/asm.go:995-1003 | An AUIPC to a label gets the high part of the distance, and the next record gets its low part. A report is made exactly when the split fails. |
| Relax.ResolveKeeps | src/cmd/internal/obj/riscv64/asm.go:985-1005 | Resolution keeps the length, the mnemonics, the PCs and the targets. |
| Relax.ResolveKeepsDiags | src/cmd/internal/obj/riscv64/asm.go:985-1005 | Resolution only appends diagnostics. |
| Relax.ResolveFrom | src/cmd/internal/obj/riscv64/asm.go:985-1005 | A successful resolution keeps the list's length. `Relax.ResolveKeeps`, `Relax.ResolveOffsets` and `Relax.ResolveReachesAt` state what it changes. |
| Relax.ResolveOffsets | src/cmd/internal/obj/riscv64/asm.go:985-1005 | Every branch and JAL to a label ends with the PC distance to its target. |
| Relax.ResolveReachesAt | src/cmd/internal/obj/riscv64/asm.go:995-1003 | The AUIPC+JALR pair ends with the two parts of the split distance. |
| Relax.ResolveAuipcReaches | src/cmd/internal/obj/riscv64/asm.go:995-1003 | Below 0x7fff_f800, `high*4096 + low` of the pair is the distance. |
| Relax.ResolvedJumpsFit | src/cmd/internal/obj/riscv64/asm.go:985-1010 | After the loop settles and resolution succeeds, the B-type and J-type validators accept every resolved branch and JAL offset. |
| Relax.EncodingDiagsEmpty | src/cmd/internal/obj/riscv64/asm.go:350-355 | setpcs reports nothing exactly when every record has an encoding. |
| Assemble.Relocate | src/cmd/internal/obj/riscv64/asm.go:1780-1819 | JALR to a symbol gets a 4-byte call relocation at its PC. An AUIPC with a relocation mark, a next record and a symbol gets an 8-byte PC-relative relocation, and its From offset is cleared. The two reported cases are exactly the missing next record or symbol. Nothing else changes. |
| Assemble.Emit | src/cmd/internal/obj/riscv64/asm.go:1780-1825 | One record contributes its relocation and one word, or no word if its length is 0. It panics exactly when its word cannot be encoded. |
| Assemble.WalkJoins | src/cmd/internal/obj/riscv64/asm.go:1780-1825 | Of `Assemble.Walk`: The loop succeeds exactly when every record emits, and its output is the records' contributions joined in order. |
| Assemble.AssembleFuncSucceeds | src/cmd/internal/obj/riscv64/asm.go:1771-1832 | Of `Assemble.AssembleFunc`: assemble panics exactly when some record with a length cannot be encoded. |
| Assemble.AssembleFuncPlaces | src/cmd/internal/obj/riscv64/asm.go:1771-1832 | Of `Assemble.AssembleFunc`: With exact PCs, the code is CodeSize bytes long, the word of each record is at its PC/4, and the relocations are those of the records in order. |
| Assemble.JoinedCode | src/cmd/internal/obj/riscv64/asm.go:1821-1826 | The words of the first k records take `CodeSize` bytes. |
| Assemble.LittleEndianRoundTrip | src/cmd/internal/obj/riscv64/asm.go:1826-1831 | Reading a word's four little-endian bytes back gives the word. |
| Assemble.LittleEndian | src/cmd/internal/obj/riscv64/asm.go:1826-1831 | A word is four bytes. `Assemble.LittleEndianRoundTrip` reads them back. |
| Assemble.Bytes | src/cmd/internal/obj/riscv64/asm.go:1826-1831 | The output has four bytes per word. |
| Assemble.BytesAt | src/cmd/internal/obj/riscv64/asm.go:1826-1831 | Bytes 4j to 4j+3 of the output read back as word j. |
| Assemble.Relocated | src/cmd/internal/obj/riscv64/asm.go:1780-1819 | Each record is relocated in place, and the mnemonics are kept. |
| Preprocess.PreprocessNoText | src/cmd/internal/obj/riscv64/asm.go:427-432 | Of `Preprocess.Preprocess`: An empty list is a nil dereference. A list not starting with TEXT is reported and left alone. A frame layout is decided exactly for a list starting with TEXT. |
| Preprocess.Stages | src/cmd/internal/obj/riscv64/asm.go:427-1011 | Of `Preprocess.Preprocess`, `Preprocess.Prepare` and `Preprocess.Link`: A successful preprocess is the composition of its stages: frame, prologue and fix-up, rewriting, splitting, relaxation, resolution and validation. |
| Preprocess.PrepareClosed | src/cmd/internal/obj/riscv64/asm.go:437-576 | Of `Preprocess.Prepare`: The prologue, the fix-up and the rebasing keep every target inside the list. |
| Preprocess.PreprocessClosed | src/cmd/internal/obj/riscv64/asm.go:427-1011 | Of `Preprocess.Preprocess`: preprocess keeps every target inside the list. |
| Preprocess.PreprocessPlaces | src/cmd/internal/obj/riscv64/asm.go:929-1011 | Of `Preprocess.Preprocess`: After preprocess, each record's PC is the size of the records before it. |
| Preprocess.PreprocessQuiet | src/cmd/internal/obj/riscv64/asm.go:427-1011 | Of `Preprocess.Preprocess`: preprocess only appends diagnostics. When it appends none, every record passes its validator. |
| Symbols.Symbol.constructor | src/cmd/internal/obj/riscv64/asm.go:427-437 | A symbol with its instruction list and nothing else yet. |
| Symbols.Symbol.ContainsCall | src/cmd/internal/obj/riscv64/asm.go:379-393 | Of `Frame.HasCall` and `Frame.IsCall`: The loop's answer is whether some record calls. |
| Symbols.Symbol.SetPcs | src/cmd/internal/obj/riscv64/asm.go:350-355 | The loop places every record and appends the table lookups' diagnostics. |
| Symbols.Symbol.StackOffsets | src/cmd/internal/obj/riscv64/asm.go:566-576 | The loop rebases every record. |
| Symbols.Symbol.RunPass | src/cmd/internal/obj/riscv64/asm.go:581-925 | The loop over the list succeeds exactly when the pass does, and then leaves the pass's list and diagnostics. |
| Symbols.Symbol.RelaxWalk | src/cmd/internal/obj/riscv64/asm.go:932-976 | One walk of the relaxation loop, as the value-level walk. |
| Symbols.Symbol.RelaxRound | src/cmd/internal/obj/riscv64/asm.go:930-979 | One round either fails the loop, or leaves the state the remaining rounds start from, or ends it. |
| Symbols.Symbol.RelaxBranches | src/cmd/internal/obj/riscv64/asm.go:929-980 | The relaxation loop, as the value-level rounds. |
| Symbols.Symbol.Resolve | src/cmd/internal/obj/riscv64/asm.go:985-1005 | The resolution loop, as the value-level resolution. |
| Symbols.Symbol.Validate | src/cmd/internal/obj/riscv64/asm.go:1008-1010 | Appends every record's validation diagnostics. |
| Symbols.Symbol.Prepare | src/cmd/internal/obj/riscv64/asm.go:437-576 | Sets Args and Locals (the frame size truncated to int32) and writes the flags back into TEXT, then links the prologue, fix-up and offsets. |
| Symbols.Symbol.Link | src/cmd/internal/obj/riscv64/asm.go:455-576 | Links in the prologue and the WRAPPER fix-up, and rebases the offsets. |
| Symbols.Symbol.RunStages | src/cmd/internal/obj/riscv64/asm.go:581-1011 | The rewriting, splitting, relaxation, resolution and validation, as the value-level stages. |
| Symbols.Symbol.PreprocessText | src/cmd/internal/obj/riscv64/asm.go:434-1011 | preprocess of a function starting with TEXT. |
| Symbols.Symbol.Preprocess | src/cmd/internal/obj/riscv64/asm.go:427-1011 | preprocess: succeeds exactly when the model's preprocess does, and leaves its list, its diagnostics and, for a TEXT function, Args and Locals. |
| Symbols.Symbol.RelocateRecord | src/cmd/internal/obj/riscv64/asm.go:1780-1819 | Relocates one record in place and appends its relocation and diagnostics. |
| Symbols.Symbol.AssembleRecord | src/cmd/internal/obj/riscv64/asm.go:1780-1825 | Relocates and encodes one record, as the value-level emission. |
| Symbols.Symbol.PutCode | src/cmd/internal/obj/riscv64/asm.go:1826-1831 | Size is four bytes per word and P holds the words little-endian. |
| Symbols.Symbol.Assemble | src/cmd/internal/obj/riscv64/asm.go:1771-1832 | assemble: succeeds exactly when the value-level assemble does, and leaves its list, relocations and diagnostics. Size and P are the code's bytes, unchanged for a list of at most one record. |

## Left out

- Package obj's constants are written out in the model: the text flags NOSPLIT, WRAPPER, NEEDCTXT and NOFRAME, and the g offsets. objabi's StackSmall and StackBig are the `StackLimits` parameter. The stack guard arithmetic of `stacksplit` uses them as given.
- The mnemonic and register numbers are the model's own. cpu.go is not part of this model. Only the layout of the codes (architecture base and table index) and the register ranges matter for the properties.
- The field table of the encoders (`encode` in cpu.go's instruction set) is a parameter, a map from mnemonic to opcode, funct3, rs2, funct7 and CSR fields. Its values are not part of this model.
- `Func.Args` comes from the TEXT directive's value operand, which the model does not hold. It is a parameter of `Symbols.Symbol.Preprocess`.
- Records linked from `Link` pointers and `newprog` allocation become a sequence. Appending a record after p becomes inserting into the sequence and shifting every later target. Aliasing between records is not modelled.
- `progedit` and `stackOffset` work on one record at a time and are modelled as functions on values. The source's in-place update of a `Prog` is that record's new value in the sequence.
- A nil From3 and an empty From3 are both an operand of kind TypeNone.
- `Symbols.Symbol.Preprocess`, `Symbols.Symbol.Assemble` and the other fallible methods: after a panic (`ok == false`), the state of the symbol is not specified. The source does not continue after a panic.
- Relax.RelaxRounds: the relaxation loop runs at most `fuel` rounds. The source loops until no branch grows, and a model of its termination would need a bound on the list's growth. A run that needs more rounds than `fuel` fails in the model.
- Lowering.LowerStore: the rewriting pass lowers a register-to-memory MOV with an AUTO, PARAM or no name by the corrected `Lowering.StoreLowering`. The store as written at asm.go:650-653 is `Lowering.StoreAsWritten` (see "Findings"). So `Preprocess.FromRewrite`, `Preprocess.Stages` and `Symbols.Symbol.Preprocess` describe the intended code, not the code as written, for these stores and for the WRAPPER fix-up's `setargp` store (asm.go:553-557).
- Codec.Split32BitImmediate: `high*4096 + low == imm` holds only for immediates below 0x7fff_f800. From there up, `high` wraps to -2^19 and the equation is off by 2^32 (`Codec.SplitWrapsAtTop`). The source's users compute in 32 bits, so LUI followed by ADDIW still loads the immediate (`Codec.Split32Recombines`, `Lowering.SplitLoadsImmediate`).
- Symbols are their names (`string`). Relocation records are appended to a sequence and not linked into an `LSym`.
- Integer fields of `Prog` are unbounded. The int32 conversions of `Func.Locals` and of the relocation offsets are written out with `Wrap32`. `Prog.Spadj` is also converted to int32 in the source (asm.go:471, 795, 811), but the model keeps it unbounded: a frame over 2 GiB is out of scope. PCs and offsets are not truncated to int64, which a function under 2 GiB never needs.
- `cursym.Grow` and the byte writes of assemble become a fresh byte array holding the little-endian words.
- Diagnostic messages are plain strings without the formatted operands. Their wording is not part of the properties, only whether one is reported.
- `follow` does nothing in the source and is not modelled.
- The ctxt and the concurrent assembly of several functions are not modelled: each function is assembled on its own.

## Findings

| source | as written | input that shows it | evidently intended | confidence | as-written member | corrected member |
|---|---|---|---|---|---|---|
| src/cmd/internal/obj/riscv64/asm.go:645-653 | A register-to-memory MOV with an AUTO, PARAM or none name is lowered with its offset taken from the source register operand. From3 is set to the destination's base register instead of the source register. | `MOV X5, 8(X6)` becomes `SD X6, 0(X6)`. | `S 8, X5, X6`: the source register in From3, the destination offset in From, and the base register in To, as the comment at that place and the prologue's RA store describe. | not executed | Lowering.StoreAsWritten, Lowering.StoreAsWrittenLosesSource | Lowering.StoreLowering |
