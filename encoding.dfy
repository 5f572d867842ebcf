/** The instruction format table of the RISC-V64 assembler: which encoding each
    mnemonic uses, the validators that report malformed operands as diagnostics,
    the encoders and the bit packers of the R, I, S, B (SB), U and J (UJ) formats
    (sections 2.2 and 2.3 of the RISC-V User-Level ISA v2.2). The per-mnemonic
    opcode, funct3, funct7, rs2 and csr fields come from a table this model takes
    as an input. */
module Encoding {
  import opened Wrappers
  import opened Codec
  import opened Progs

  /** The fixed opcode fields of one mnemonic, as returned by `encode(as)`. */
  datatype InstFields = InstFields(opcode: bv32, funct3: bv32, rs2: bv32, csr: int, funct7: bv32)

  predicate FieldsFit(f: InstFields) {
    f.opcode < 0x80 && f.funct3 < 8 && f.rs2 < 32 && f.funct7 < 0x80
  }

  /** The encodings of the table; Bad is used after a diagnostic for an unknown mnemonic. */
  datatype Encoding = RIII | RFFF | RFFI | RFI | RIF | RFF | II | IF | SI | SF
                    | SBType | UType | UJType | Raw | PseudoOp | Bad

  /** Encoded length in bytes: 0 for pseudo-ops and bad entries, 4 otherwise. */
  function Length(e: Encoding): (n: int)
    ensures n == 0 || n == 4
    ensures n == 0 <==> e == PseudoOp || e == Bad
  {
    if e == PseudoOp || e == Bad then 0 else 4
  }

  /** encodingForAs (asm.go:1565-1722); None where the table has no entry. */
  function EncodingForAs(op: As): Option<Encoding> {
    if op == JAL then Some(UJType)
    else if op == JALR then Some(II)
    else if op == BEQ || op == BNE || op == BLT || op == BLTU || op == BGE || op == BGEU then Some(SBType)
    else if op == ECALL || op == EBREAK then Some(II)
    else if op == ADDI || op == ADDIW || op == SLTI || op == SLTIU || op == ANDI || op == ORI || op == XORI || op == SLLI || op == SRLI || op == SRAI then Some(II)
    else if op == LUI || op == AUIPC then Some(UType)
    else if op == ADD || op == SLT || op == SLTU || op == AND || op == OR || op == XOR || op == SLL || op == SRL || op == SUB || op == SRA then Some(RIII)
    else if op == LD || op == LW || op == LWU || op == LH || op == LHU || op == LB || op == LBU then Some(II)
    else if op == SD || op == SW || op == SH || op == SB then Some(SI)
    else if op == RDCYCLE || op == RDTIME || op == RDINSTRET then Some(II)
    else if op == MUL || op == MULH || op == MULHU || op == MULHSU || op == MULW || op == DIV || op == DIVU || op == REM || op == REMU || op == DIVW || op == DIVUW || op == REMW || op == REMUW then Some(RIII)
    else if op == FLW || op == FLD then Some(IF)
    else if op == FSW || op == FSD then Some(SF)
    else if op == FADDS || op == FSUBS || op == FMULS || op == FDIVS || op == FSQRTS || op == FSGNJS || op == FSGNJNS || op == FSGNJXS then Some(RFFF)
    else if op == FADDD || op == FSUBD || op == FMULD || op == FDIVD || op == FSQRTD || op == FSGNJD || op == FSGNJND || op == FSGNJXD then Some(RFFF)
    else if op == FCVTWS || op == FCVTLS || op == FCVTWD || op == FCVTLD then Some(RFI)
    else if op == FCVTSW || op == FCVTSL || op == FMVSX || op == FCVTDW || op == FCVTDL || op == FMVDX then Some(RIF)
    else if op == FCVTSD || op == FCVTDS then Some(RFF)
    else if op == FEQS || op == FLTS || op == FLES || op == FEQD || op == FLTD || op == FLED then Some(RFFI)
    else if op == WORD then Some(Raw)
    else if op == FUNCDATA || op == PCDATA || op == TEXT || op == NOP then Some(PseudoOp)
    else None
  }

  /** The mnemonic whose table entry a code selects: the table is indexed by the low
      bits of the code, shared by the independent and the RISC-V mnemonics. */
  function TableEntry(op: As): (r: As)
    ensures (op as int) - (op as int) % AllowedOpCodes == 0 ==> (op as int) < ArchSpecific ==> r == op
    ensures (op as int) - (op as int) % AllowedOpCodes == BaseRiscv ==> (op as int) % AllowedOpCodes >= ArchSpecific ==> r == op
  {
    var index := (op as int) % AllowedOpCodes;
    if index < ArchSpecific then index as As else (BaseRiscv + index) as As
  }

  /** encodingForP (asm.go:1751-1767): the encoding and the diagnostics reported. A
      code of another architecture, an index past the table and an index without an
      entry are each reported. */
  function EncodingForP(p: Prog): (r: (Encoding, seq<string>))
    ensures r.0 == Bad <==> |r.1| == 1
    ensures |r.1| <= 1
  {
    var code := p.op as int;
    var base := code - code % AllowedOpCodes;
    if base != BaseRiscv && base != 0 then (Bad, ["encodingForP: not a RISC-V instruction"])
    else if code % AllowedOpCodes >= TableLength then (Bad, ["encodingForP: bad RISC-V instruction"])
    else match EncodingForAs(TableEntry(p.op))
      case None => (Bad, ["encodingForP: no encoding for instruction"])
      case Some(e) => (e, [])
  }

  /** What encodingForP selects: the table entry of the record's code when nothing is
      reported, and for a RISC-V or independent code the entry of that very code. */
  lemma EncodingForPSelects(p: Prog)
    ensures EncodingForP(p).1 == [] ==> Some(EncodingForP(p).0) == EncodingForAs(TableEntry(p.op))
    ensures EncodingForAs(p.op).Some? ==> EncodingForP(p) == (EncodingForAs(p.op).value, [])
  {
  }

  function LengthOf(p: Prog): int { Length(EncodingForP(p).0) }

  // ---------------------------------------------------------------- validators

  function WantReg(a: Addr, descr: string, min: int, max: int): seq<string> {
    if a.typ != TypeReg then ["expected register but got something else"]
    else if a.reg < min || max < a.reg then ["expected " + descr + " register"]
    else []
  }

  function WantIntReg(a: Addr): seq<string> { WantReg(a, "integer", RegX0, RegX31) }
  function WantFloatReg(a: Addr): seq<string> { WantReg(a, "float", RegF0, RegF31) }

  function WantImm(a: Addr, nbits: nat): seq<string> {
    if a.typ != TypeConst then ["expected immediate"]
    else if !ImmFits(a.offset, nbits) then ["immediate too large"]
    else []
  }

  /** wantEvenJumpOffset (asm.go:1285-1289) tests `Offset % 1 != 0`. */
  function WantEvenJumpOffset(p: Prog): seq<string> {
    if p.to.offset % 1 != 0 then ["jump offset must be even"] else []
  }

  /** The evenness test can never fire: every integer is a multiple of 1. */
  lemma WantEvenJumpOffsetNeverReports(p: Prog)
    ensures WantEvenJumpOffset(p) == []
  {
  }

  /** The validate half of each encoding (asm.go:1291-1552). */
  function Validate(e: Encoding, p: Prog): seq<string> {
    match e
    case RIII => WantIntReg(p.from) + WantIntReg(p.from3) + WantIntReg(p.to)
    case RFFF => WantFloatReg(p.from) + WantFloatReg(p.from3) + WantFloatReg(p.to)
    case RFFI => WantFloatReg(p.from) + WantFloatReg(p.from3) + WantIntReg(p.to)
    case RFI => WantFloatReg(p.from) + WantIntReg(p.to)
    case RIF => WantIntReg(p.from) + WantFloatReg(p.to)
    case RFF => WantFloatReg(p.from) + WantFloatReg(p.to)
    case II => WantImm(p.from, 12) + WantIntReg(p.from3) + WantIntReg(p.to)
    case IF => WantImm(p.from, 12) + WantIntReg(p.from3) + WantFloatReg(p.to)
    case SI => WantImm(p.from, 12) + WantIntReg(p.from3) + WantIntReg(p.to)
    case SF => WantImm(p.from, 12) + WantFloatReg(p.from3) + WantIntReg(p.to)
    case SBType => WantEvenJumpOffset(p) + WantImm(p.to, 13) + WantIntReg(p.from)
    case UType =>
      if p.op == AUIPC && (p.mark.pcrelIType || p.mark.pcrelSType) then []
      else WantImm(p.from, 20) + WantIntReg(p.to)
    case UJType => WantEvenJumpOffset(p) + WantImm(p.to, 21) + WantIntReg(p.from)
    case Raw =>
      if p.from.typ != TypeConst then ["expected immediate in raw position"]
      else if p.from.offset < 0 || 0x1_0000_0000 <= p.from.offset then ["raw immediate larger than 32 bits"]
      else []
    case PseudoOp => []
    case Bad => []
  }

  /** Validation of one record: the table lookup's diagnostics and the validator's. */
  function ValidateP(p: Prog): seq<string> {
    var (e, d) := EncodingForP(p);
    d + Validate(e, p)
  }

  // ------------------------------------------------------------- bit packers

  /** encodeR (asm.go:1324-1337) without the table lookup. */
  function PackR(f: InstFields, rs1: bv32, rs2: bv32, rd: bv32, scond: bv32): (w: bv32)
    ensures FieldsFit(f) && rs1 < 32 && rs2 < 32 && rd < 32 && scond < 8 ==>
      w & 0x7f == f.opcode && (w >> 7) & 0x1f == rd && (w >> 12) & 7 == f.funct3 | scond &&
      (w >> 15) & 0x1f == rs1 && (w >> 20) & 0x1f == f.rs2 | rs2 && w >> 25 == f.funct7
  {
    (f.funct7 << 25) | (f.rs2 << 20) | (rs2 << 20) | (rs1 << 15) | (f.funct3 << 12) | (scond << 12) | (rd << 7) | f.opcode
  }

  /** encodeI (asm.go:1374-1383) without the operand extraction: `imm` is already ORed with the csr. */
  function PackI(f: InstFields, imm: bv32, rs1: bv32, rd: bv32): (w: bv32)
    ensures FieldsFit(f) && rs1 < 32 && rd < 32 ==>
      w & 0x7f == f.opcode && (w >> 7) & 0x1f == rd && (w >> 12) & 7 == f.funct3 &&
      (w >> 15) & 0x1f == rs1 && w >> 20 == imm & 0xfff
  {
    (imm << 20) | (rs1 << 15) | (f.funct3 << 12) | (rd << 7) | f.opcode
  }

  /** encodeS (asm.go:1413-1426): imm[11:5] in bits 31:25, imm[4:0] in bits 11:7. */
  function PackS(f: InstFields, imm: bv32, rs1: bv32, rs2: bv32): (w: bv32)
    ensures FieldsFit(f) && rs1 < 32 && rs2 < 32 ==>
      w & 0x7f == f.opcode && (w >> 12) & 7 == f.funct3 && (w >> 15) & 0x1f == rs1 &&
      (w >> 20) & 0x1f == rs2 && ((w >> 25) << 5) | ((w >> 7) & 0x1f) == imm & 0xfff
  {
    ((imm >> 5) << 25) | (rs2 << 20) | (rs1 << 15) | (f.funct3 << 12) | ((imm & 0x1f) << 7) | f.opcode
  }

  /** The B-type immediate imm[12|10:5|4:1|11] gathered back from an instruction word. */
  function DecodeBImm(w: bv32): bv32 {
    ((w >> 31) << 12) | (((w >> 25) & 0x3f) << 5) | (((w >> 8) & 0xf) << 1) | (((w >> 7) & 1) << 11)
  }

  /** encodeSB (asm.go:1445-1461): a 13-bit even offset, bit 0 dropped. */
  function PackSB(f: InstFields, imm: bv32, rs1: bv32, rs2: bv32): (w: bv32)
    ensures FieldsFit(f) && rs1 < 32 && rs2 < 32 ==>
      w & 0x7f == f.opcode && (w >> 12) & 7 == f.funct3 && (w >> 15) & 0x1f == rs1 &&
      (w >> 20) & 0x1f == rs2 && DecodeBImm(w) == imm & 0x1ffe
  {
    ((imm >> 12) << 31) | (((imm >> 5) & 0x3f) << 25) | (rs2 << 20) | (rs1 << 15) | (f.funct3 << 12) |
    (((imm >> 1) & 0xf) << 8) | (((imm >> 11) & 1) << 7) | f.opcode
  }

  /** encodeU (asm.go:1475-1487): the 20-bit immediate in bits 31:12. */
  function PackU(f: InstFields, imm: bv32, rd: bv32): (w: bv32)
    ensures FieldsFit(f) && rd < 32 ==>
      w & 0x7f == f.opcode && (w >> 7) & 0x1f == rd && w & 0xffff_f000 == imm << 12
  {
    (imm << 12) | (rd << 7) | f.opcode
  }

  /** encodeUJ (asm.go:1529-1537). */
  function PackUJ(f: InstFields, imm: bv32, rd: bv32): (w: bv32)
    ensures FieldsFit(f) && rd < 32 ==>
      w & 0x7f == f.opcode && (w >> 7) & 0x1f == rd && DecodeUJImm(w) == imm & 0x1f_fffe
  {
    EncodeUJImm(imm) | (rd << 7) | f.opcode
  }

  // ----------------------------------------------------------------- encoders

  /** regval (asm.go:1209-1214); out of range panics. */
  function RegVal(r: int, min: int, max: int): (v: Result<bv32>)
    requires max - min < 32
    ensures v.Success? <==> min <= r <= max
    ensures v.Success? ==> v.value < 32
  {
    if r < min || max < r then Failure("register out of range") else Success((r - min) as bv32)
  }

  function RegOf(a: Addr, min: int, max: int): Result<bv32>
    requires max - min < 32
  {
    if a.typ != TypeReg then Failure("ill typed") else RegVal(a.reg, min, max)
  }

  function RegI(a: Addr): Result<bv32> { RegOf(a, RegX0, RegX31) }
  function RegF(a: Addr): Result<bv32> { RegOf(a, RegF0, RegF31) }

  /** immi (asm.go:1265-1273): the constant as a uint32, or a panic. */
  function Immi(a: Addr, nbits: nat): (v: Result<bv32>)
    ensures v.Success? <==> a.typ == TypeConst && ImmFits(a.offset, nbits)
  {
    if a.typ != TypeConst then Failure("ill typed")
    else if !ImmFits(a.offset, nbits) then Failure("immediate cannot fit")
    else Success(ToU32(a.offset))
  }

  function Fields(table: map<As, InstFields>, op: As): Result<InstFields> {
    if op in table then Success(table[op]) else Failure("could not encode instruction")
  }

  function EncodeR(table: map<As, InstFields>, p: Prog, rs1: Result<bv32>, rs2: Result<bv32>, rd: Result<bv32>): Result<bv32> {
    if rs1.Failure? then Failure(rs1.error)
    else if rs2.Failure? then Failure(rs2.error)
    else if rd.Failure? then Failure(rd.error)
    else match Fields(table, p.op)
      case Failure(m) => Failure(m)
      case Success(f) =>
        if f.rs2 != 0 && rs2.value != 0 then Failure("encodeR: instruction uses rs2, but rs2 was nonzero")
        else Success(PackR(f, rs1.value, rs2.value, rd.value, ToU32(p.scond)))
  }

  function EncodeI(table: map<As, InstFields>, p: Prog, rd: Result<bv32>): Result<bv32> {
    if rd.Failure? then Failure(rd.error)
    else match Immi(p.from, 12)
      case Failure(m) => Failure(m)
      case Success(imm) =>
        match RegI(p.from3)
        case Failure(m) => Failure(m)
        case Success(rs1) =>
          match Fields(table, p.op)
          case Failure(m) => Failure(m)
          case Success(f) => Success(PackI(f, imm | ToU32(f.csr), rs1, rd.value))
  }

  function EncodeS(table: map<As, InstFields>, p: Prog, rs2: Result<bv32>): Result<bv32> {
    if rs2.Failure? then Failure(rs2.error)
    else match Immi(p.from, 12)
      case Failure(m) => Failure(m)
      case Success(imm) =>
        match RegI(p.to)
        case Failure(m) => Failure(m)
        case Success(rs1) =>
          match Fields(table, p.op)
          case Failure(m) => Failure(m)
          case Success(f) => Success(PackS(f, imm, rs1, rs2.value))
  }

  /** The encode half of each encoding: the machine word of one record, or a panic. */
  function Encode(table: map<As, InstFields>, e: Encoding, p: Prog): Result<bv32> {
    match e
    case RIII => EncodeR(table, p, RegI(p.from3), RegI(p.from), RegI(p.to))
    case RFFF => EncodeR(table, p, RegF(p.from3), RegF(p.from), RegF(p.to))
    case RFFI => EncodeR(table, p, RegF(p.from3), RegF(p.from), RegI(p.to))
    case RFI => EncodeR(table, p, RegF(p.from), Success(0), RegI(p.to))
    case RIF => EncodeR(table, p, RegI(p.from), Success(0), RegF(p.to))
    case RFF => EncodeR(table, p, RegF(p.from), Success(0), RegF(p.to))
    case II => EncodeI(table, p, RegI(p.to))
    case IF => EncodeI(table, p, RegF(p.to))
    case SI => EncodeS(table, p, RegI(p.from3))
    case SF => EncodeS(table, p, RegF(p.from3))
    case SBType =>
      (match Immi(p.to, 13)
       case Failure(m) => Failure(m)
       case Success(imm) =>
         match RegVal(p.reg, RegX0, RegX31)
         case Failure(m) => Failure(m)
         case Success(rs2) =>
           match RegI(p.from)
           case Failure(m) => Failure(m)
           case Success(rs1) =>
             match Fields(table, p.op)
             case Failure(m) => Failure(m)
             case Success(f) => Success(PackSB(f, imm, rs1, rs2)))
    case UType =>
      (match Immi(p.from, 20)
       case Failure(m) => Failure(m)
       case Success(imm) =>
         match RegI(p.to)
         case Failure(m) => Failure(m)
         case Success(rd) =>
           match Fields(table, p.op)
           case Failure(m) => Failure(m)
           case Success(f) => Success(PackU(f, imm, rd)))
    case UJType =>
      (match Immi(p.to, 21)
       case Failure(m) => Failure(m)
       case Success(imm) =>
         match RegI(p.from)
         case Failure(m) => Failure(m)
         case Success(rd) =>
           match Fields(table, p.op)
           case Failure(m) => Failure(m)
           case Success(f) => Success(PackUJ(f, imm, rd)))
    case Raw =>
      if p.from.typ != TypeConst then Failure("ill typed")
      else if p.from.offset < 0 || 0x1_0000_0000 <= p.from.offset then Failure("immediate cannot fit in 32 bits")
      else Success(p.from.offset as bv32)
    case PseudoOp => Failure("pseudo-op has no encoder")
    case Bad => Success(0)
  }

  /** A record that passes its validator is encoded without a panic, provided the mnemonic
      is in the field table and the two checks the validators leave out hold: the second
      register of a branch (`p.Reg`, not validated) is an integer register, and an R-type
      mnemonic with a fixed rs2 field gets register 0 as its second source. An AUIPC
      carrying a relocation is exempt from validation, so it is excluded here. */
  lemma ValidatedRecordEncodes(table: map<As, InstFields>, p: Prog)
    requires p.op in table
    requires EncodingForP(p).1 == [] && Validate(EncodingForP(p).0, p) == []
    requires EncodingForP(p).0 != PseudoOp
    requires EncodingForP(p).0 == SBType ==> RegX0 <= p.reg <= RegX31
    requires EncodingForP(p).0 in {RIII, RFFF, RFFI} ==> table[p.op].rs2 == 0 || p.from.reg in {RegX0, RegF0}
    requires !(p.op == AUIPC && (p.mark.pcrelIType || p.mark.pcrelSType))
    ensures Encode(table, EncodingForP(p).0, p).Success?
  {
    ValidatedEncodes(table, EncodingForP(p).0, p);
  }

  /** The same, for a given encoding of the record. */
  lemma ValidatedEncodes(table: map<As, InstFields>, e: Encoding, p: Prog)
    requires p.op in table
    requires Validate(e, p) == [] && e != PseudoOp && e != Bad
    requires e == SBType ==> RegX0 <= p.reg <= RegX31
    requires e in {RIII, RFFF, RFFI} ==> table[p.op].rs2 == 0 || p.from.reg in {RegX0, RegF0}
    requires !(p.op == AUIPC && (p.mark.pcrelIType || p.mark.pcrelSType))
    ensures Encode(table, e, p).Success?
  {
    match e
    case RIII => assert WantIntReg(p.from) == [] && WantIntReg(p.from3) == [] && WantIntReg(p.to) == [];
    case RFFF => assert WantFloatReg(p.from) == [] && WantFloatReg(p.from3) == [] && WantFloatReg(p.to) == [];
    case RFFI => assert WantFloatReg(p.from) == [] && WantFloatReg(p.from3) == [] && WantIntReg(p.to) == [];
    case RFI => assert WantFloatReg(p.from) == [] && WantIntReg(p.to) == [];
    case RIF => assert WantIntReg(p.from) == [] && WantFloatReg(p.to) == [];
    case RFF => assert WantFloatReg(p.from) == [] && WantFloatReg(p.to) == [];
    case II => assert WantImm(p.from, 12) == [] && WantIntReg(p.from3) == [] && WantIntReg(p.to) == [];
    case IF => assert WantImm(p.from, 12) == [] && WantIntReg(p.from3) == [] && WantFloatReg(p.to) == [];
    case SI => assert WantImm(p.from, 12) == [] && WantIntReg(p.from3) == [] && WantIntReg(p.to) == [];
    case SF => assert WantImm(p.from, 12) == [] && WantFloatReg(p.from3) == [] && WantIntReg(p.to) == [];
    case SBType => assert WantImm(p.to, 13) == [] && WantIntReg(p.from) == [];
    case UType => assert WantImm(p.from, 20) == [] && WantIntReg(p.to) == [];
    case UJType => assert WantImm(p.to, 21) == [] && WantIntReg(p.from) == [];
    case Raw =>
  }
}
