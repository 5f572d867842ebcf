/** The per-instruction normaliser `progedit` of the RISC-V64 assembler and the small
    mnemonic maps it and the frame pass use. One record is rewritten at a time, with no
    state shared between records; the rewrite is modelled as a function from the record
    before to the record after. */
module Normalize {
  import opened Wrappers
  import opened Progs
  import Encoding

  /** movtol (asm.go:146-170): the load that implements a MOV from memory. */
  function MovToL(op: As): (r: Result<As>)
    ensures r.Success? <==> IsMovOp(op)
  {
    if op == MOV then Success(LD)
    else if op == MOVB then Success(LB)
    else if op == MOVH then Success(LH)
    else if op == MOVW then Success(LW)
    else if op == MOVBU then Success(LBU)
    else if op == MOVHU then Success(LHU)
    else if op == MOVWU then Success(LWU)
    else if op == MOVF then Success(FLW)
    else if op == MOVD then Success(FLD)
    else Failure("is not a MOV")
  }

  /** movtos (asm.go:172-190): the store that implements a MOV to memory; the
      unsigned moves have none. */
  function MovToS(op: As): (r: Result<As>)
    ensures r.Success? <==> IsMovOp(op) && !(op == MOVBU || op == MOVHU || op == MOVWU)
  {
    if op == MOV then Success(SD)
    else if op == MOVB then Success(SB)
    else if op == MOVH then Success(SH)
    else if op == MOVW then Success(SW)
    else if op == MOVF then Success(FSW)
    else if op == MOVD then Success(FSD)
    else Failure("is not a MOV")
  }

  /** The load chosen for a MOV is an I-type load of the same width and signedness. */
  lemma MovToLPreservesWidth(op: As)
    requires IsMovOp(op)
    ensures var l := MovToL(op).value;
      (Encoding.EncodingForAs(l) == Some(Encoding.II) || Encoding.EncodingForAs(l) == Some(Encoding.IF)) &&
      MoveWidth(l) == MoveWidth(op) && MoveWidth(l) > 0 && SignExtends(l) == SignExtends(op)
  {
  }

  /** The store chosen for a MOV is an S-type store of the same width. */
  lemma MovToSPreservesWidth(op: As)
    requires IsMovOp(op) && !(op == MOVBU || op == MOVHU || op == MOVWU)
    ensures var st := MovToS(op).value;
      (Encoding.EncodingForAs(st) == Some(Encoding.SI) || Encoding.EncodingForAs(st) == Some(Encoding.SF)) &&
      MoveWidth(st) == MoveWidth(op) && MoveWidth(st) > 0
  {
  }

  /** Bytes moved by a MOV, load or store (the reference the MOV lowering must preserve). */
  function MoveWidth(op: As): int {
    if (op == MOV || op == MOVD || op == LD || op == SD || op == FLD || op == FSD) then 8
    else if (op == MOVW || op == MOVWU || op == MOVF || op == LW || op == LWU || op == SW || op == FLW || op == FSW) then 4
    else if (op == MOVH || op == MOVHU || op == LH || op == LHU || op == SH) then 2
    else if (op == MOVB || op == MOVBU || op == LB || op == LBU || op == SB) then 1
    else 0
  }

  /** Whether a narrow load sign-extends (the unsigned MOVs and loads do not). */
  predicate SignExtends(op: As) {
    !(op == MOVBU || op == MOVHU || op == MOVWU || op == LBU || op == LHU || op == LWU)
  }

  /** addrtoreg (asm.go:192-198): stack-class operands are addressed from SP. */
  function AddrToReg(a: Addr): (r: int)
    ensures a.name in {NameAuto, NameParam} ==> r == RegSP
    ensures a.name !in {NameAuto, NameParam} ==> r == a.reg
  {
    match a.name
    case NameParam => RegSP
    case NameAuto => RegSP
    case _ => a.reg
  }

  /** InvertBranch (asm.go:358-375); any other mnemonic panics. */
  function InvertBranch(op: As): (r: Result<As>)
    ensures r.Success? <==> IsCondBranch(op)
    ensures r.Success? ==> IsCondBranch(r.value) && r.value != op
  {
    if op == BEQ then Success(BNE)
    else if op == BNE then Success(BEQ)
    else if op == BLT then Success(BGE)
    else if op == BGE then Success(BLT)
    else if op == BLTU then Success(BGEU)
    else if op == BGEU then Success(BLTU)
    else Failure("InvertBranch: not a branch")
  }

  /** Inverting twice gives back the branch, for each of the six conditions. */
  lemma InvertBranchInvolutive(op: As)
    requires IsCondBranch(op)
    ensures InvertBranch(InvertBranch(op).value) == Success(op)
  {
  }

  /** The inversion pairs the conditions as (BEQ, BNE), (BLT, BGE), (BLTU, BGEU). */
  lemma InvertBranchPairs(op: As)
    requires IsCondBranch(op)
    ensures op == BEQ <==> InvertBranch(op).value == BNE
    ensures op == BLT <==> InvertBranch(op).value == BGE
    ensures op == BLTU <==> InvertBranch(op).value == BGEU
  {
  }

  /** lowerjalr (asm.go:77-99): JALR is parsed with the link register in From and the
      target in To; the I-type encoding wants the link register in To, the target
      register in From3 and the offset in From. */
  function LowerJalr(p: Prog): (r: Prog)
    requires p.op == JALR
    ensures r.to == p.from
    ensures r.from3.typ == TypeReg && r.from3.reg == p.to.reg && r.from3.offset == 0
    ensures r.from.typ == TypeConst && r.from.offset == p.to.offset && r.from.reg == RegNone
    ensures r.op == p.op && r.pcond == p.pcond && r.mark == p.mark
  {
    p.(from3 := p.to.(typ := TypeReg, offset := 0),
       from := p.to.(typ := TypeConst, reg := RegNone),
       to := p.from)
  }

  /** The binary mnemonics that progedit expands to ternary form. */
  predicate ExpandsToTernary(op: As) {
    (op == ADD || op == SUB || op == SLL || op == XOR || op == SRL || op == SRA || op == OR || op == AND || op == MUL || op == MULH || op == MULHU || op == MULHSU || op == MULW || op == DIV || op == DIVU || op == REM || op == REMU || op == DIVW || op == DIVUW || op == REMW || op == REMUW)
  }

  /** The immediate variant of a register mnemonic, where one exists. */
  function ImmediateVariant(op: As): Option<As> {
    if op == ADD then Some(ADDI)
    else if op == AND then Some(ANDI)
    else if op == OR then Some(ORI)
    else if op == SLL then Some(SLLI)
    else if op == SLT then Some(SLTI)
    else if op == SLTU then Some(SLTIU)
    else if op == SRA then Some(SRAI)
    else if op == SRL then Some(SRLI)
    else if op == XOR then Some(XORI)
    else None
  }

  /** A rewritten record with the diagnostics reported on the way. */
  datatype Edited = Edited(p: Prog, diags: seq<string>)

  /** The opcode-specific rewrites of progedit (asm.go:245-341), applied after the
      ternary expansion and the immediate-variant rewrite. */
  function EditSpecial(table: map<As, Encoding.InstFields>, p: Prog): Result<Edited> {
    var op := p.op;
    if op == JMP then
      var q := p.(from := p.from.(typ := TypeReg, reg := RegZero));
      (match q.to.typ
       case TypeBranch => Success(Edited(q.(op := JAL), []))
       case TypeMem =>
         (match q.to.name
          case NameAuto => Success(Edited(LowerJalr(q.(op := JALR)), []))
          case NameParam => Success(Edited(LowerJalr(q.(op := JALR)), []))
          case NameNone => Success(Edited(LowerJalr(q.(op := JALR)), []))
          case NameExtern => Success(Edited(q, []))
          case _ => Success(Edited(q, ["progedit: unsupported name"])))
       case _ => Failure("unhandled type"))
    else if op == CALL then
      (match p.to.typ
       case TypeMem => Success(Edited(p, []))
       case TypeReg => Success(Edited(LowerJalr(p.(op := JALR, from := p.from.(typ := TypeReg, reg := RegRA))), []))
       case _ => Success(Edited(p, ["unknown destination type in CALL"])))
    else if op == JALR then Success(Edited(LowerJalr(p), []))
    else if op == UNDEF then SystemOp(table, p.(op := EBREAK))
    else if op == SCALL then SystemOp(table, p.(op := ECALL))
    else if op == ECALL || op == EBREAK || op == RDCYCLE || op == RDTIME || op == RDINSTRET then SystemOp(table, p)
    else if op == SEQZ then Success(Edited(p.(op := SLTIU, from3 := p.from, from := ConstAddr(1)), []))
    else if op == SNEZ then Success(Edited(p.(op := SLTU, from3 := RegAddr(RegZero)), []))
    else if op == FNEGS then Success(Edited(p.(op := FSGNJNS, from3 := p.from), []))
    else if op == FNEGD then Success(Edited(p.(op := FSGNJND, from3 := p.from), []))
    else if op == FSQRTS || op == FSQRTD then Success(Edited(p.(from3 := p.from, from := RegAddr(RegF0)), []))
    else if IsFloatToIntConversion(op) then Success(Edited(p.(scond := 1), []))
    else Success(Edited(p, []))
  }

  /** The float-to-integer conversions, which progedit sets to round towards zero. */
  predicate IsFloatToIntConversion(op: As) {
    op == FCVTWS || op == FCVTLS || op == FCVTWUS || op == FCVTLUS || op == FCVTWD || op == FCVTLD || op == FCVTWUD || op == FCVTLUD
  }

  /** ECALL, EBREAK and the counter reads: the CSR number goes in the immediate and
      the register operands default to ZERO (asm.go:285-306). */
  function SystemOp(table: map<As, Encoding.InstFields>, p: Prog): Result<Edited> {
    if p.op !in table then Failure("progedit: tried to rewrite nonexistent instruction")
    else
      var q := p.(from := p.from.(typ := TypeConst, offset := table[p.op].csr),
                  from3 := p.from3.(typ := TypeReg, reg := RegZero));
      Success(Edited(if q.to.typ == TypeNone then q.(to := q.to.(typ := TypeReg, reg := RegZero)) else q, []))
  }

  /** progedit (asm.go:202-342). A record without From3 is one whose from3 has kind
      TypeNone, so the first step of the source (supplying an empty From3) is the identity. */
  function ProgEdit(table: map<As, Encoding.InstFields>, p: Prog): Result<Edited> {
    var p1 := if p.from3.typ == TypeNone && ExpandsToTernary(p.op)
              then p.(from3 := p.from3.(typ := TypeReg, reg := p.to.reg)) else p;
    var p2 := if p1.from.typ == TypeConst && ImmediateVariant(p1.op).Some?
              then p1.(op := ImmediateVariant(p1.op).value) else p1;
    EditSpecial(table, p2)
  }

  /** A binary instruction with no third operand gets the destination register there,
      and with a constant source it becomes its immediate variant. Nothing else changes. */
  lemma ProgEditExpandsBinary(table: map<As, Encoding.InstFields>, p: Prog)
    requires ExpandsToTernary(p.op) && p.from3.typ == TypeNone
    ensures ProgEdit(table, p).Success?
    ensures ProgEdit(table, p).value.diags == []
    ensures ProgEdit(table, p).value.p ==
      p.(from3 := p.from3.(typ := TypeReg, reg := p.to.reg),
         op := if p.from.typ == TypeConst && ImmediateVariant(p.op).Some? then ImmediateVariant(p.op).value else p.op)
  {
  }

  /** A register mnemonic with a constant first operand becomes its immediate variant. */
  lemma ProgEditImmediateVariant(table: map<As, Encoding.InstFields>, p: Prog)
    requires p.from.typ == TypeConst && ImmediateVariant(p.op).Some?
    ensures ProgEdit(table, p).Success?
    ensures ProgEdit(table, p).value.p.op == ImmediateVariant(p.op).value
    ensures Encoding.EncodingForAs(ProgEdit(table, p).value.p.op) == Some(Encoding.II)
  {
    var v := ImmediateVariant(p.op).value;
    ImmediateVariantIsIType(p.op);
    var p1 := if p.from3.typ == TypeNone && ExpandsToTernary(p.op)
              then p.(from3 := p.from3.(typ := TypeReg, reg := p.to.reg)) else p;
    assert p1.op == p.op && p1.from == p.from;
    EditSpecialPlain(table, p1.(op := v));
  }

  /** The immediate variants are I-type mnemonics that progedit leaves alone. */
  lemma ImmediateVariantIsIType(op: As)
    requires ImmediateVariant(op).Some?
    ensures var v := ImmediateVariant(op).value;
      (v == ADDI || v == ANDI || v == ORI || v == SLLI || v == SLTI || v == SLTIU || v == SRAI || v == SRLI || v == XORI) &&
      Encoding.EncodingForAs(v) == Some(Encoding.II)
  {
  }

  /** Records whose mnemonic has no special rewrite pass through unchanged. */
  lemma EditSpecialPlain(table: map<As, Encoding.InstFields>, p: Prog)
    requires !(p.op == JMP || p.op == CALL || p.op == JALR || p.op == UNDEF || p.op == SCALL || p.op == ECALL ||
               p.op == EBREAK || p.op == RDCYCLE || p.op == RDTIME || p.op == RDINSTRET || p.op == SEQZ ||
               p.op == SNEZ || p.op == FNEGS || p.op == FNEGD || p.op == FSQRTS || p.op == FSQRTD ||
               IsFloatToIntConversion(p.op))
    ensures EditSpecial(table, p) == Success(Edited(p, []))
  {
  }

  /** SEQZ rs, rd becomes SLTIU $1, rs, rd and SNEZ rs, rd becomes SLTU rs, ZERO, rd. */
  lemma ProgEditSetOnZero(table: map<As, Encoding.InstFields>, p: Prog)
    requires p.op == SEQZ || p.op == SNEZ
    ensures ProgEdit(table, p).Success? && ProgEdit(table, p).value.diags == []
    ensures var q := ProgEdit(table, p).value.p;
      q.to == p.to &&
      (p.op == SEQZ ==> q.op == SLTIU && q.from3 == p.from && q.from == ConstAddr(1)) &&
      (p.op == SNEZ ==> q.op == SLTU && q.from3 == RegAddr(RegZero) && q.from == p.from)
  {
    assert !ExpandsToTernary(p.op) && ImmediateVariant(p.op).None?;
    assert ProgEdit(table, p) == EditSpecial(table, p);
  }

  /** The float rewrites: FNEGS rs, rd becomes FSGNJNS rs, rs, rd and FNEGD becomes
      FSGNJND likewise; FSQRTS and FSQRTD move their input to From3 and take F0 as the
      second input; the float-to-integer conversions round towards zero (Scond 1). */
  lemma ProgEditFloat(table: map<As, Encoding.InstFields>, p: Prog)
    requires p.op in {FNEGS, FNEGD, FSQRTS, FSQRTD} || IsFloatToIntConversion(p.op)
    ensures ProgEdit(table, p).Success? && ProgEdit(table, p).value.diags == []
    ensures var q := ProgEdit(table, p).value.p;
      q.to == p.to && q.pcond == p.pcond &&
      (p.op == FNEGS ==> q.op == FSGNJNS && q.from == p.from && q.from3 == p.from) &&
      (p.op == FNEGD ==> q.op == FSGNJND && q.from == p.from && q.from3 == p.from) &&
      (p.op in {FSQRTS, FSQRTD} ==> q.op == p.op && q.from3 == p.from && q.from == RegAddr(RegF0)) &&
      (IsFloatToIntConversion(p.op) ==> q.op == p.op && q.scond == 1 && q.from == p.from && q.from3 == p.from3)
  {
    assert !ExpandsToTernary(p.op) && ImmediateVariant(p.op).None?;
    assert ProgEdit(table, p) == EditSpecial(table, p);
  }

  /** Every jump and call through a register or stack slot leaves progedit as a JALR
      whose link register is the jump's own output (ZERO) or RA for a call. */
  lemma ProgEditLowersJumps(table: map<As, Encoding.InstFields>, p: Prog)
    requires p.op == JMP || p.op == CALL
    requires (p.op == JMP && p.to.typ == TypeMem && p.to.name in {NameAuto, NameParam, NameNone}) ||
             (p.op == CALL && p.to.typ == TypeReg)
    ensures ProgEdit(table, p).Success? && ProgEdit(table, p).value.diags == []
    ensures var q := ProgEdit(table, p).value.p;
      q.op == JALR && q.to.typ == TypeReg && q.to.reg == (if p.op == JMP then RegZero else RegRA) &&
      q.from3.typ == TypeReg && q.from3.reg == p.to.reg && q.from.typ == TypeConst && q.from.offset == p.to.offset
  {
  }

  /** A JMP to a label becomes JAL with ZERO as the link register. */
  lemma ProgEditJumpToLabel(table: map<As, Encoding.InstFields>, p: Prog)
    requires p.op == JMP && p.to.typ == TypeBranch
    ensures ProgEdit(table, p) == Success(Edited(p.(op := JAL, from := p.from.(typ := TypeReg, reg := RegZero)), []))
  {
  }

  /** Re-running progedit on its own output changes nothing, except for the three
      rewrites that move operands around every time (JALR, FSQRTS, FSQRTD) and a SNEZ
      with a constant operand, which the second run turns into SLTIU. */
  lemma ProgEditIdempotent(table: map<As, Encoding.InstFields>, p: Prog)
    requires ProgEdit(table, p).Success? && ProgEdit(table, p).value.diags == []
    requires var q := ProgEdit(table, p).value.p; !(q.op == JALR || q.op == FSQRTS || q.op == FSQRTD)
    requires !(p.op == SNEZ && p.from.typ == TypeConst)
    ensures ProgEdit(table, ProgEdit(table, p).value.p) == Success(Edited(ProgEdit(table, p).value.p, []))
  {
    var p1 := if p.from3.typ == TypeNone && ExpandsToTernary(p.op)
              then p.(from3 := p.from3.(typ := TypeReg, reg := p.to.reg)) else p;
    var p2 := if p1.from.typ == TypeConst && ImmediateVariant(p1.op).Some?
              then p1.(op := ImmediateVariant(p1.op).value) else p1;
    assert ProgEdit(table, p) == EditSpecial(table, p2);
    assert p2.op == SNEZ ==> p.op == SNEZ && p2.from == p.from;
    EditSpecialIdempotent(table, p2);
    ProgEditOfNormal(table, EditSpecial(table, p2).value.p);
  }

  /** A record already in ternary form with no pending immediate-variant rewrite goes
      straight to the opcode-specific rewrites. */
  lemma ProgEditOfNormal(table: map<As, Encoding.InstFields>, q: Prog)
    requires !(q.from3.typ == TypeNone && ExpandsToTernary(q.op))
    requires !(q.from.typ == TypeConst && ImmediateVariant(q.op).Some?)
    ensures ProgEdit(table, q) == EditSpecial(table, q)
  {
  }

  /** The opcode-specific rewrites reach a fixed point after one application (with
      the exceptions of ProgEditIdempotent), and their output needs no ternary expansion
      nor immediate variant. */
  lemma EditSpecialIdempotent(table: map<As, Encoding.InstFields>, p: Prog)
    requires !(p.from3.typ == TypeNone && ExpandsToTernary(p.op))
    requires !(p.from.typ == TypeConst && ImmediateVariant(p.op).Some?)
    requires EditSpecial(table, p).Success? && EditSpecial(table, p).value.diags == []
    requires var q := EditSpecial(table, p).value.p; !(q.op == JALR || q.op == FSQRTS || q.op == FSQRTD)
    requires !(p.op == SNEZ && p.from.typ == TypeConst)
    ensures var q := EditSpecial(table, p).value.p;
      !(q.from3.typ == TypeNone && ExpandsToTernary(q.op)) &&
      !(q.from.typ == TypeConst && ImmediateVariant(q.op).Some?) &&
      EditSpecial(table, q) == Success(Edited(q, []))
  {
    var op := p.op;
    if op == JMP {
      EditSpecialJumpIdempotent(table, p);
    } else if op == CALL {
      assert EditSpecial(table, p).value.p == p;
    } else if op == UNDEF || op == SCALL || op == ECALL || op == EBREAK || op == RDCYCLE || op == RDTIME || op == RDINSTRET {
      EditSpecialSystemIdempotent(table, p);
    } else if op == SEQZ || op == SNEZ || op == FNEGS || op == FNEGD {
      var q := EditSpecial(table, p).value.p;
      assert q.op == SLTIU || q.op == SLTU || q.op == FSGNJNS || q.op == FSGNJND;
      EditSpecialPlain(table, q);
    } else if IsFloatToIntConversion(op) {
      assert EditSpecial(table, p).value.p == p.(scond := 1);
    } else {
      EditSpecialPlain(table, p);
    }
  }

  lemma EditSpecialJumpIdempotent(table: map<As, Encoding.InstFields>, p: Prog)
    requires p.op == JMP
    requires EditSpecial(table, p).Success? && EditSpecial(table, p).value.diags == []
    requires EditSpecial(table, p).value.p.op != JALR
    ensures var q := EditSpecial(table, p).value.p;
      q.from.typ == TypeReg && (q.op == JAL || q.op == JMP) &&
      EditSpecial(table, q) == Success(Edited(q, []))
  {
    var q := EditSpecial(table, p).value.p;
    if p.to.typ == TypeBranch {
      assert q.op == JAL;
      EditSpecialPlain(table, q);
    } else {
      assert p.to.typ == TypeMem && p.to.name == NameExtern;
      assert q == p.(from := p.from.(typ := TypeReg, reg := RegZero));
    }
  }

  lemma EditSpecialSystemIdempotent(table: map<As, Encoding.InstFields>, p: Prog)
    requires p.op == UNDEF || p.op == SCALL || p.op == ECALL || p.op == EBREAK || p.op == RDCYCLE || p.op == RDTIME || p.op == RDINSTRET
    requires EditSpecial(table, p).Success?
    ensures var q := EditSpecial(table, p).value.p;
      (q.op == ECALL || q.op == EBREAK || q.op == RDCYCLE || q.op == RDTIME || q.op == RDINSTRET) &&
      EditSpecial(table, q) == Success(Edited(q, []))
  {
    var p' := if p.op == UNDEF then p.(op := EBREAK) else if p.op == SCALL then p.(op := ECALL) else p;
    assert EditSpecial(table, p) == SystemOp(table, p');
    var q := SystemOp(table, p').value.p;
    SystemOpIdempotent(table, p');
    EditSpecialSystem(table, q);
  }

  /** ECALL, EBREAK and the counter reads go through SystemOp. */
  lemma EditSpecialSystem(table: map<As, Encoding.InstFields>, p: Prog)
    requires p.op == ECALL || p.op == EBREAK || p.op == RDCYCLE || p.op == RDTIME || p.op == RDINSTRET
    ensures EditSpecial(table, p) == SystemOp(table, p)
  {
  }

  /** SystemOp keeps the mnemonic and is a no-op on its own output. */
  lemma SystemOpIdempotent(table: map<As, Encoding.InstFields>, p: Prog)
    requires SystemOp(table, p).Success?
    ensures var q := SystemOp(table, p).value.p;
      q.op == p.op && SystemOp(table, q) == Success(Edited(q, []))
  {
  }

  /** On an instruction that is already in ternary immediate form, progedit is a no-op. */
  lemma ProgEditCanonicalNoop(table: map<As, Encoding.InstFields>, p: Prog)
    requires (p.op == ADDI || p.op == ANDI || p.op == ORI || p.op == XORI || p.op == SLLI || p.op == SRLI || p.op == SRAI || p.op == SLTI || p.op == SLTIU) && p.from3.typ != TypeNone
    ensures ProgEdit(table, p) == Success(Edited(p, []))
  {
    assert !ExpandsToTernary(p.op) && ImmediateVariant(p.op).None?;
    EditSpecialPlain(table, p);
  }
}
