/** The instruction records the RISC-V64 assembler works on: mnemonics, operands
    (`obj.Addr`) and instruction descriptors (`obj.Prog`). A function's instruction
    list is a sequence of descriptors; a branch target (`Pcond`) is an index into it. */
module Progs {
  import opened Wrappers

  /** Mnemonics (`obj.As`, a 16-bit code). As in package obj, the low 11 bits of a
      code index the encoding table and the bits above them name the architecture:
      0 for the architecture-independent mnemonics, BaseRiscv for the RISC-V ones,
      whose indices start after the independent ones. Codes of other architectures
      and codes without a name here are left as plain numbers. The numbering below
      is the model's own; only the layout matters. */
  newtype As = x: int | 0 <= x < 0x8000

  const AllowedOpCodes: int := 0x800
  const BaseRiscv: int := 0x3800  // 7 * AllowedOpCodes

  // obj (an XXX is the zero mnemonic of a freshly allocated record); the RISC-V
  // codes that follow are BaseRiscv + ArchSpecific + 0, 1, 2, ...
  const XXX: As := 0
  const CALL: As := 1
  const DUFFCOPY: As := 2
  const DUFFZERO: As := 3
  const END: As := 4
  const FUNCDATA: As := 5
  const JMP: As := 6
  const NOP: As := 7
  const PCALIGN: As := 8
  const PCDATA: As := 9
  const RET: As := 10
  const GETCALLERPC: As := 11
  const TEXT: As := 12
  const UNDEF: As := 13
  const ArchSpecific: int := 14

  // control transfer
  const JAL: As := 14350
  const JALR: As := 14351
  const BEQ: As := 14352
  const BNE: As := 14353
  const BLT: As := 14354
  const BLTU: As := 14355
  const BGE: As := 14356
  const BGEU: As := 14357

  // environment calls and counters
  const ECALL: As := 14358
  const EBREAK: As := 14359
  const SCALL: As := 14360
  const RDCYCLE: As := 14361
  const RDTIME: As := 14362
  const RDINSTRET: As := 14363

  // integer computational
  const ADDI: As := 14364
  const ADDIW: As := 14365
  const SLTI: As := 14366
  const SLTIU: As := 14367
  const ANDI: As := 14368
  const ORI: As := 14369
  const XORI: As := 14370
  const SLLI: As := 14371
  const SRLI: As := 14372
  const SRAI: As := 14373
  const LUI: As := 14374
  const AUIPC: As := 14375
  const ADD: As := 14376
  const SLT: As := 14377
  const SLTU: As := 14378
  const AND: As := 14379
  const OR: As := 14380
  const XOR: As := 14381
  const SLL: As := 14382
  const SRL: As := 14383
  const SUB: As := 14384
  const SRA: As := 14385

  // loads and stores
  const LD: As := 14386
  const LW: As := 14387
  const LWU: As := 14388
  const LH: As := 14389
  const LHU: As := 14390
  const LB: As := 14391
  const LBU: As := 14392
  const SD: As := 14393
  const SW: As := 14394
  const SH: As := 14395
  const SB: As := 14396

  // multiplication and division
  const MUL: As := 14397
  const MULH: As := 14398
  const MULHU: As := 14399
  const MULHSU: As := 14400
  const MULW: As := 14401
  const DIV: As := 14402
  const DIVU: As := 14403
  const REM: As := 14404
  const REMU: As := 14405
  const DIVW: As := 14406
  const DIVUW: As := 14407
  const REMW: As := 14408
  const REMUW: As := 14409

  // single precision
  const FLW: As := 14410
  const FSW: As := 14411
  const FADDS: As := 14412
  const FSUBS: As := 14413
  const FMULS: As := 14414
  const FDIVS: As := 14415
  const FSQRTS: As := 14416
  const FCVTWS: As := 14417
  const FCVTLS: As := 14418
  const FCVTSW: As := 14419
  const FCVTSL: As := 14420
  const FCVTWUS: As := 14421
  const FCVTLUS: As := 14422
  const FSGNJS: As := 14423
  const FSGNJNS: As := 14424
  const FSGNJXS: As := 14425
  const FMVSX: As := 14426
  const FEQS: As := 14427
  const FLTS: As := 14428
  const FLES: As := 14429

  // double precision
  const FLD: As := 14430
  const FSD: As := 14431
  const FADDD: As := 14432
  const FSUBD: As := 14433
  const FMULD: As := 14434
  const FDIVD: As := 14435
  const FSQRTD: As := 14436
  const FCVTWD: As := 14437
  const FCVTLD: As := 14438
  const FCVTDW: As := 14439
  const FCVTDL: As := 14440
  const FCVTWUD: As := 14441
  const FCVTLUD: As := 14442
  const FCVTSD: As := 14443
  const FCVTDS: As := 14444
  const FSGNJD: As := 14445
  const FSGNJND: As := 14446
  const FSGNJXD: As := 14447
  const FMVDX: As := 14448
  const FEQD: As := 14449
  const FLTD: As := 14450
  const FLED: As := 14451

  // raw word
  const WORD: As := 14452

  // pseudo-instructions
  const MOV: As := 14453
  const MOVB: As := 14454
  const MOVH: As := 14455
  const MOVW: As := 14456
  const MOVBU: As := 14457
  const MOVHU: As := 14458
  const MOVWU: As := 14459
  const MOVF: As := 14460
  const MOVD: As := 14461
  const SEQZ: As := 14462
  const SNEZ: As := 14463
  const FNEGS: As := 14464
  const FNEGD: As := 14465
  const FNES: As := 14466
  const FNED: As := 14467

  /** One past the last index of the encoding table: the table runs up to WORD. */
  const TableLength: int := 117  // (WORD as int) % AllowedOpCodes + 1

  /** Operand kinds (`obj.TYPE_*`); TypeOther covers the kinds this assembler does not handle. */
  datatype AddrType = TypeNone | TypeReg | TypeConst | TypeMem | TypeAddr | TypeBranch | TypeOther

  /** Symbol classes of memory operands (`obj.NAME_*`). */
  datatype AddrName = NameNone | NameExtern | NameStatic | NameAuto | NameParam | NameOther

  datatype Addr = Addr(typ: AddrType, name: AddrName, reg: int, offset: int, sym: Option<string>)

  /** Relocation requests recorded in `Prog.Mark`. */
  datatype Mark = Mark(pcrelIType: bool, pcrelSType: bool)

  /** `obj.Prog`. `from3` is the first of `RestArgs`; a record without one is modelled
      with an operand of kind TypeNone. `pcond` is the index of the branch target. */
  datatype Prog = Prog(op: As, from: Addr, from3: Addr, to: Addr, reg: int, mark: Mark,
                       scond: int, spadj: int, pc: int, pcond: Option<nat>)

  // Registers. The model numbers them itself: RegNone is 0, X0..X31 are 1..32 and
  // F0..F31 are 33..64; only the two ranges and the named registers below matter.
  const RegNone: int := 0
  const RegX0: int := 1
  const RegX31: int := 32
  const RegF0: int := 33
  const RegF31: int := 64
  const RegZero: int := RegX0
  const RegRA: int := RegX0 + 1
  const RegSP: int := RegX0 + 2
  const RegT0: int := RegX0 + 5
  const RegA0: int := RegX0 + 10
  const RegA1: int := RegX0 + 11
  const RegA2: int := RegX0 + 12
  const RegA3: int := RegX0 + 13
  const RegG: int := RegX0 + 27
  const RegTmp: int := RegX0 + 31

  const NoAddr: Addr := Addr(TypeNone, NameNone, RegNone, 0, None)
  const NoMark: Mark := Mark(false, false)

  function RegAddr(r: int): Addr { NoAddr.(typ := TypeReg, reg := r) }
  function ConstAddr(off: int): Addr { NoAddr.(typ := TypeConst, offset := off) }

  /** What `obj.Appendp` inserts: a zeroed record. */
  const NewProg: Prog := Prog(XXX, NoAddr, NoAddr, NoAddr, RegNone, NoMark, 0, 0, 0, None)

  predicate IsCondBranch(op: As) {
    (op == BEQ || op == BNE || op == BLT || op == BGE || op == BLTU || op == BGEU)
  }

  predicate IsMovOp(op: As) {
    (op == MOV || op == MOVB || op == MOVH || op == MOVW || op == MOVBU || op == MOVHU || op == MOVWU || op == MOVF || op == MOVD)
  }

  /** Every branch target of the list points into the list. */
  predicate TargetsClosed(s: seq<Prog>) {
    forall k :: 0 <= k < |s| && s[k].pcond.Some? ==> s[k].pcond.value < |s|
  }
}
