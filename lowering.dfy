/** The instruction rewrites of the frame pass that change the number of records:
    the MOV, CALL, JMP, RET and FNE lowerings and the splitting of immediates that do
    not fit in 12 bits. Each rewrite turns one record into a block of one to four
    records; the pass walks the list and splices each block in place. */
module Lowering {
  import opened Wrappers
  import opened Codec
  import opened Progs
  import opened Splice
  import Normalize

  // ------------------------------------------------------------ helpers of the pass

  /** The records of a block point nowhere or where the rewritten record pointed. */
  predicate KeepsTarget(b: seq<Prog>, p: Prog) {
    forall j :: 0 <= j < |b| ==> b[j].pcond.None? || b[j].pcond == p.pcond
  }

  /** The records a block adds after its first are not rewritable. */
  predicate TailFixed(b: seq<Prog>) {
    forall j :: 1 <= j < |b| ==> !Rewritable(b[j].op)
  }

  /** Every record of a block is lowered. */
  predicate AllDone(b: seq<Prog>) {
    forall j :: 0 <= j < |b| ==> Done(b[j])
  }

  /** A block of records that are not rewritable, the first pointing where p pointed
      and the others nowhere. */
  lemma FixedBlock(b: seq<Prog>, p: Prog)
    requires forall j :: 0 <= j < |b| ==> !Rewritable(b[j].op)
    requires forall j :: 1 <= j < |b| ==> b[j].pcond.None?
    requires |b| > 0 ==> b[0].pcond == p.pcond
    ensures KeepsTarget(b, p) && TailFixed(b) && AllDone(b)
  {
  }

  /** A block whose first record points where p pointed and whose others point nowhere. */
  lemma TargetBlock(b: seq<Prog>, p: Prog)
    requires forall j :: 1 <= j < |b| ==> b[j].pcond.None?
    requires |b| > 0 ==> b[0].pcond == p.pcond
    ensures KeepsTarget(b, p)
  {
  }

  /** The loads and stores chosen for a MOV are no MOV themselves. */
  lemma MemoryOpsFixed(op: As)
    requires IsMovOp(op)
    ensures !Rewritable(Normalize.MovToL(op).value)
    ensures !(op == MOVBU || op == MOVHU || op == MOVWU) ==> !Rewritable(Normalize.MovToS(op).value)
  {
  }

  /** One step of a register computed by LUI then ADDIW on RV64: LUI loads the
      sign-extended `high << 12`, ADDIW adds `low` in 32 bits and sign-extends. */
  function LuiAddiwValue(high: int, low: int): int {
    Wrap32(Wrap32(high * 4096) + low)
  }

  /** Adding after a 32-bit wrap and wrapping again is wrapping once. */
  lemma Wrap32Add(x: int, y: int)
    ensures Wrap32(Wrap32(x) + y) == Wrap32(x + y)
  {
    var w := Wrap32(x + y);
    ModDiff(x + y - w, x - Wrap32(x), 0x1_0000_0000);
    assert (x + y - w) - (x - Wrap32(x)) == Wrap32(x) + y - w;
    Wrap32Unique(Wrap32(x) + y, w);
  }

  /** The pair produced by Split32BitImmediate loads exactly the immediate, for every
      32-bit immediate, including the top ones whose `high` wraps around. */
  lemma SplitLoadsImmediate(imm: int, s: Split)
    requires Split32BitImmediate(imm) == Success(s)
    ensures LuiAddiwValue(s.high, s.low) == imm
  {
    Split32Recombines(imm);
    LuiAddiwWraps(s.high, s.low);
  }

  /** The LUI/ADDIW pair computes the 32-bit wrap of `high * 4096 + low`. */
  lemma LuiAddiwWraps(high: int, low: int)
    ensures LuiAddiwValue(high, low) == Wrap32(high * 4096 + low)
  {
    Wrap32Add(high * 4096, low);
  }

  /** loadImmIntoRegTmp (asm.go:402-417): p becomes LUI $high, TMP and a new
      ADDIW $low, TMP, TMP follows it; the caller appends the record that uses TMP. */
  function LoadImmIntoRegTmp(p: Prog, low: int, high: int): (r: seq<Prog>)
    ensures |r| == 2 && r[0].op == LUI && r[1].op == ADDIW
    ensures r[0].to == RegAddr(RegTmp) && r[1].to == RegAddr(RegTmp) && r[1].from3 == RegAddr(RegTmp)
    ensures LuiAddiwValue(r[0].from.offset, r[1].from.offset) == LuiAddiwValue(high, low)
    ensures r[0].spadj == 0 && r[0].pcond == p.pcond && r[1].pcond.None?
  {
    [p.(op := LUI, from := ConstAddr(high), from3 := NoAddr, to := RegAddr(RegTmp), spadj := 0),
     NewProg.(op := ADDIW, from := ConstAddr(low), from3 := RegAddr(RegTmp), to := RegAddr(RegTmp))]
  }

  /** jalrToSym (asm.go:106-144): a CALL or JMP to a symbol becomes AUIPC, ADDI, JALR
      through TMP, with lr as the link register; the AUIPC asks for a PC-relative
      relocation and the JALR keeps the symbol for the call relocation. Anything else
      is reported and left alone. */
  function JalrToSym(p: Prog, lr: int): (r: Lowered)
    ensures |r.block| == 1 || |r.block| == 3
    ensures |r.block| == 3 <==> (p.op == CALL || p.op == JMP)
    ensures r.diags == [] <==> |r.block| == 3
    ensures |r.block| == 1 ==> r.block == [p]
    ensures |r.block| == 3 ==>
      var a, b, c := r.block[0], r.block[1], r.block[2];
      a.op == AUIPC && a.mark.pcrelIType && a.from.typ == TypeConst && a.from.offset == p.to.offset &&
      a.from.sym == p.to.sym && a.to == RegAddr(RegTmp) && a.pcond == p.pcond &&
      b.op == ADDI && b.from3 == RegAddr(RegTmp) && b.to == RegAddr(RegTmp) && b.from == ConstAddr(0) &&
      c.op == JALR && c.to.typ == TypeReg && c.to.reg == lr && c.to.sym == p.to.sym &&
      c.from3 == RegAddr(RegTmp) && c.from.typ == TypeConst && c.from.offset == 0 &&
      b.pcond.None? && c.pcond.None?
    ensures KeepsTarget(r.block, p) && TailFixed(r.block)
    ensures r.diags == [] ==> AllDone(r.block)
  {
    if !(p.op == CALL || p.op == JMP) then Lowered([p], ["unexpected Prog in jalrToSym"])
    else
      var to := p.to;
      var a := p.(op := AUIPC, from := NoAddr.(typ := TypeConst, offset := to.offset, sym := to.sym),
                  from3 := NoAddr, to := RegAddr(RegTmp), mark := p.mark.(pcrelIType := true));
      var b := NewProg.(op := ADDI, from := ConstAddr(0), from3 := RegAddr(RegTmp), to := RegAddr(RegTmp));
      var c0 := NewProg.(op := JALR, from := NoAddr.(typ := TypeReg, reg := lr, sym := to.sym),
                         from3 := NoAddr, to := NoAddr.(typ := TypeReg, reg := RegTmp));
      var c := Normalize.LowerJalr(c0);
      FixedBlock([a, b, c], p);
      Lowered([a, b, c], [])
  }

  // ------------------------------------------------------------- the MOV lowerings

  /** MOV c(Rs), Rd becomes a load L $c, Rs, Rd; a MOV from a global goes through
      AUIPC (asm.go:591-620). */
  function LowerLoad(p: Prog): (r: Lowered)
    requires IsMovOp(p.op) && p.from.typ == TypeMem
    ensures var name := p.from.name; var l := Normalize.MovToL(p.op).value;
      (name.NameAuto? || name.NameParam? || name.NameNone? ==>
        |r.block| == 1 && (r.diags == [] <==> p.to.typ == TypeReg) &&
        r.block[0].op == l && r.block[0].from == ConstAddr(p.from.offset) &&
        r.block[0].from3 == RegAddr(Normalize.AddrToReg(p.from)) && r.block[0].to == p.to) &&
      (name.NameExtern? || name.NameStatic? ==>
        |r.block| == 2 && r.diags == [] &&
        r.block[0].op == AUIPC && r.block[0].mark.pcrelIType && r.block[0].from.typ == TypeConst &&
        r.block[0].from.offset == p.from.offset && r.block[0].from.sym == p.from.sym &&
        r.block[0].to == RegAddr(p.to.reg) &&
        r.block[1].op == l && r.block[1].from == ConstAddr(0) && r.block[1].from3 == RegAddr(p.to.reg) &&
        r.block[1].to == p.to) &&
      (name.NameOther? ==> r.block == [p] && r.diags != [])
    ensures KeepsTarget(r.block, p) && TailFixed(r.block)
    ensures r.diags == [] ==> AllDone(r.block)
  {
    MemoryOpsFixed(p.op);
    var name := p.from.name;
    if name.NameAuto? || name.NameParam? || name.NameNone? then
      var d := if p.to.typ != TypeReg then ["progedit: unsupported load"] else [];
      Lowered([p.(op := Normalize.MovToL(p.op).value,
                  from3 := RegAddr(Normalize.AddrToReg(p.from)),
                  from := ConstAddr(p.from.offset))], d)
    else if name.NameExtern? || name.NameStatic? then
      var to := p.to;
      Lowered([p.(op := AUIPC, from := NoAddr.(typ := TypeConst, offset := p.from.offset, sym := p.from.sym),
                  from3 := NoAddr, to := RegAddr(to.reg), mark := p.mark.(pcrelIType := true)),
                NewProg.(op := Normalize.MovToL(p.op).value, from := ConstAddr(0),
                         from3 := RegAddr(to.reg), to := to)], [])
    else Lowered([p], ["progedit: unsupported name"])
  }

  /** MOV Ra, Rb between registers (asm.go:621-637). */
  function LowerRegMove(p: Prog): (r: Lowered)
    requires IsMovOp(p.op) && p.from.typ == TypeReg && p.to.typ == TypeReg
    ensures |r.block| == 1 && KeepsTarget(r.block, p)
    ensures r.diags == [] <==> p.op in {MOV, MOVF, MOVD}
    ensures var q := r.block[0];
      q.to == p.to &&
      (p.op == MOV ==> q.op == ADDI && q.from == ConstAddr(0) && q.from3 == p.from) &&
      (p.op == MOVF ==> q.op == FSGNJS && q.from == p.from && q.from3 == p.from) &&
      (p.op == MOVD ==> q.op == FSGNJD && q.from == p.from && q.from3 == p.from) &&
      (p.op !in {MOV, MOVF, MOVD} ==> q == p)
    ensures r.diags == [] ==> AllDone(r.block)
  {
    if p.op == MOV then Lowered([p.(op := ADDI, from3 := p.from, from := ConstAddr(0))], [])
    else if p.op == MOVF then Lowered([p.(op := FSGNJS, from3 := p.from)], [])
    else if p.op == MOVD then Lowered([p.(op := FSGNJD, from3 := p.from)], [])
    else Lowered([p], ["progedit: unsupported register-register move"])
  }

  /** The store of MOV Rs, c(Rd) as the source writes it (asm.go:645-653): the offset is
      taken from the source register operand and From3 is the memory operand, so the
      store writes the base register to offset 0 of itself. */
  function StoreAsWritten(p: Prog): (r: Prog)
    requires IsMovOp(p.op) && !(p.op == MOVBU || p.op == MOVHU || p.op == MOVWU)
    ensures r.from == ConstAddr(p.from.offset) && r.from3.reg == p.to.reg
  {
    p.(op := Normalize.MovToS(p.op).value,
       from := ConstAddr(p.from.offset),
       from3 := p.to.(typ := TypeReg),
       to := RegAddr(Normalize.AddrToReg(p.to)))
  }

  /** MOV X5, 8(X6) as written becomes a store of X6 at 0(X6): neither the source
      register nor the offset survives. */
  lemma StoreAsWrittenLosesSource()
    ensures var p := NewProg.(op := MOV, from := RegAddr(RegX0 + 5),
                              to := NoAddr.(typ := TypeMem, reg := RegX0 + 6, offset := 8));
      var q := StoreAsWritten(p);
      q.op == SD && q.from3.reg == RegX0 + 6 && q.from3.reg != p.from.reg &&
      q.to.reg == RegX0 + 6 && q.from.offset == 0 && q.from.offset != p.to.offset
  {
  }

  /** The store the comment at asm.go:646-649 describes and the S-type encoder expects
      (rs2 from From3, base from To, offset from From): S $c, Rs, Rd. */
  function StoreLowering(p: Prog): (r: Prog)
    requires IsMovOp(p.op) && !(p.op == MOVBU || p.op == MOVHU || p.op == MOVWU)
    ensures r.op == Normalize.MovToS(p.op).value
    ensures r.from3.typ == TypeReg && r.from3.reg == p.from.reg
    ensures r.from.typ == TypeConst && r.from.offset == p.to.offset
    ensures r.to.typ == TypeReg && r.to.reg == Normalize.AddrToReg(p.to)
    ensures r.pcond == p.pcond && r.spadj == p.spadj && r.mark == p.mark
  {
    p.(op := Normalize.MovToS(p.op).value,
       from3 := p.from.(typ := TypeReg),
       from := ConstAddr(p.to.offset),
       to := RegAddr(Normalize.AddrToReg(p.to)))
  }

  /** MOV Rs, c(Rd) (asm.go:638-676). The unsigned moves have no store: the source
      reports them and then panics inside movtos on the names it lowers. */
  function LowerStore(p: Prog): (r: Result<Lowered>)
    requires IsMovOp(p.op) && p.from.typ == TypeReg && p.to.typ == TypeMem
    ensures r.Failure? <==> ((p.op == MOVBU || p.op == MOVHU || p.op == MOVWU) &&
      (p.to.name.NameAuto? || p.to.name.NameParam? || p.to.name.NameNone? || p.to.name.NameExtern?))
    ensures var name := p.to.name;
      r.Success? ==>
      (r.value.diags == [] <==>
        !(p.op == MOVBU || p.op == MOVHU || p.op == MOVWU) && !name.NameStatic? && !name.NameOther?) &&
      (name.NameAuto? || name.NameParam? || name.NameNone? ==> r.value.block == [StoreLowering(p)]) &&
      (name.NameExtern? ==>
        |r.value.block| == 2 &&
        var a, b := r.value.block[0], r.value.block[1];
        a.op == AUIPC && a.mark.pcrelSType && a.from.typ == TypeConst && a.from.offset == p.to.offset &&
        a.from.sym == p.to.sym && a.to == RegAddr(RegTmp) &&
        b.op == Normalize.MovToS(p.op).value && b.from == ConstAddr(0) && b.from3 == p.from &&
        b.to == RegAddr(RegTmp)) &&
      (name.NameStatic? || name.NameOther? ==> r.value.block == [p])
    ensures r.Success? ==> KeepsTarget(r.value.block, p) && TailFixed(r.value.block)
    ensures r.Success? && r.value.diags == [] ==> AllDone(r.value.block)
  {
    MemoryOpsFixed(p.op);
    var unsigned := p.op == MOVBU || p.op == MOVHU || p.op == MOVWU;
    var d := if unsigned then ["progedit: unsupported unsigned store"] else [];
    var name := p.to.name;
    if name.NameAuto? || name.NameParam? || name.NameNone? then
      if unsigned then Failure("movtos: not a MOV")
      else Success(Lowered([StoreLowering(p)], d))
    else if name.NameExtern? then
      if unsigned then Failure("movtos: not a MOV")
      else
        Success(Lowered([p.(op := AUIPC, from := NoAddr.(typ := TypeConst, offset := p.to.offset, sym := p.to.sym),
                            from3 := NoAddr, to := RegAddr(RegTmp), mark := p.mark.(pcrelSType := true)),
                          NewProg.(op := Normalize.MovToS(p.op).value, from := ConstAddr(0),
                                   from3 := p.from, to := RegAddr(RegTmp))], d))
    else Success(Lowered([p], d + ["progedit: unsupported name"]))
  }

  /** MOV $c, R (asm.go:681-715): ADDIW $c, ZERO, R when c fits in 12 bits, otherwise
      LUI $high, R then ADDIW $low, R, R. A constant beyond 32 bits is reported and
      loads 0. */
  function LowerConst(p: Prog): (r: Lowered)
    requires IsMovOp(p.op) && p.from.typ == TypeConst
    ensures 1 <= |r.block| <= 2
    ensures KeepsTarget(r.block, p) && TailFixed(r.block) && AllDone(r.block)
  {
    var d0 := if p.op != MOV then ["progedit: unsupported constant load"] else [];
    var to := p.to;
    var sp := Split32BitImmediate(p.from.offset);
    var low := if sp.Success? then sp.value.low else 0;
    var high := if sp.Success? then sp.value.high else 0;
    var d := d0 + (if sp.Failure? then ["constant too large"] else []);
    if high != 0 then
      var b := [p.(op := LUI, to := to, from := ConstAddr(high)),
                NewProg.(op := ADDIW, to := to, from := ConstAddr(low), from3 := RegAddr(to.reg))];
      FixedBlock(b, p);
      Lowered(b, d)
    else
      var b := [p.(op := ADDIW, to := to, from := ConstAddr(low), from3 := RegAddr(RegZero))];
      FixedBlock(b, p);
      Lowered(b, d)
  }

  /** A constant load reaches its destination register with exactly the constant, for
      every constant of 32 bits: one ADDIW from ZERO when it fits in 12 bits, else a
      LUI/ADDIW pair on the destination. */
  lemma LowerConstLoadsValue(p: Prog)
    requires p.op == MOV && p.from.typ == TypeConst && ImmFits(p.from.offset, 32)
    ensures var r := LowerConst(p);
      r.diags == [] && r.block[|r.block| - 1].op == ADDIW && r.block[|r.block| - 1].to == p.to &&
      (|r.block| == 1 <==> ImmFits(p.from.offset, 12)) &&
      (|r.block| == 1 ==> r.block[0].from3 == RegAddr(RegZero) && r.block[0].from.offset == p.from.offset) &&
      (|r.block| == 2 ==> r.block[0].op == LUI && r.block[0].to == p.to &&
                          r.block[1].from3 == RegAddr(p.to.reg) &&
                          LuiAddiwValue(r.block[0].from.offset, r.block[1].from.offset) == p.from.offset)
  {
    if !ImmFits(p.from.offset, 12) {
      SplitLoadsImmediate(p.from.offset, Split32BitImmediate(p.from.offset).value);
    }
  }

  /** MOV $sym+off(SP/SB), R: address arithmetic (asm.go:717-757). */
  function LowerAddr(p: Prog): (r: Lowered)
    requires IsMovOp(p.op) && p.from.typ == TypeAddr
    ensures 1 <= |r.block| <= 2
    ensures var name := p.from.name; var q := r.block[|r.block| - 1];
      (r.diags == [] <==> p.to.typ == TypeReg && p.op == MOV && !name.NameOther?) &&
      (name.NameExtern? || name.NameStatic? ==>
        |r.block| == 2 &&
        r.block[0].op == AUIPC && r.block[0].mark.pcrelIType && r.block[0].from.typ == TypeConst &&
        r.block[0].from.offset == p.from.offset && r.block[0].from.sym == p.from.sym &&
        r.block[0].to == p.to &&
        q.op == ADDI && q.from == ConstAddr(0) && q.from3 == RegAddr(p.to.reg) && q.to == p.to) &&
      (name.NameParam? || name.NameAuto? || name.NameNone? ==>
        |r.block| == 1 && q.op == ADDI && q.to == p.to &&
        q.from.typ == TypeConst && q.from.offset == p.from.offset &&
        q.from3.typ == TypeReg && q.from3.reg == Normalize.AddrToReg(p.from)) &&
      (name.NameOther? ==> r.block == [p])
    ensures KeepsTarget(r.block, p) && TailFixed(r.block)
    ensures r.diags == [] ==> AllDone(r.block)
  {
    var d := if p.to.typ != TypeReg || p.op != MOV then ["progedit: unsupported addr MOV"] else [];
    var name := p.from.name;
    if name.NameExtern? || name.NameStatic? then
      var to := p.to;
      Lowered([p.(op := AUIPC, from := NoAddr.(typ := TypeConst, offset := p.from.offset, sym := p.from.sym),
                  from3 := NoAddr, to := to, mark := p.mark.(pcrelIType := true)),
               NewProg.(op := ADDI, from := ConstAddr(0), from3 := RegAddr(to.reg), to := to)], d)
    else if name.NameParam? || name.NameAuto? then
      Lowered([p.(op := ADDI, from3 := p.from3.(typ := TypeReg, reg := RegSP), from := p.from.(typ := TypeConst))], d)
    else if name.NameNone? then
      Lowered([p.(op := ADDI, from3 := p.from3.(typ := TypeReg, reg := p.from.reg),
                  from := p.from.(typ := TypeConst, reg := 0))], d)
    else Lowered([p], d + ["progedit: bad addr MOV from name"])
  }

  /** The MOV lowering, by the kind of the source operand (asm.go:580-761). */
  function LowerMov(p: Prog): (r: Result<Lowered>)
    requires IsMovOp(p.op)
    ensures p.from.typ == TypeMem ==> r == Success(LowerLoad(p))
    ensures p.from.typ == TypeReg && p.to.typ == TypeReg ==> r == Success(LowerRegMove(p))
    ensures p.from.typ == TypeReg && p.to.typ == TypeMem ==> r == LowerStore(p)
    ensures p.from.typ == TypeConst ==> r == Success(LowerConst(p))
    ensures p.from.typ == TypeAddr ==> r == Success(LowerAddr(p))
    ensures p.from.typ !in {TypeMem, TypeReg, TypeConst, TypeAddr} ||
            (p.from.typ == TypeReg && p.to.typ !in {TypeReg, TypeMem}) ==>
      r.Success? && r.value.block == [p] && r.value.diags != []
    ensures r.Success? ==> 1 <= |r.value.block| <= 2 && KeepsTarget(r.value.block, p) && TailFixed(r.value.block)
    ensures r.Success? && r.value.diags == [] ==> AllDone(r.value.block)
  {
    match p.from.typ
    case TypeMem => Success(LowerLoad(p))
    case TypeReg =>
      (match p.to.typ
       case TypeReg => Success(LowerRegMove(p))
       case TypeMem => LowerStore(p)
       case _ => Success(Lowered([p], ["progedit: unsupported MOV"])))
    case TypeConst => Success(LowerConst(p))
    case TypeAddr => Success(LowerAddr(p))
    case _ => Success(Lowered([p], ["progedit: unsupported MOV"]))
  }

  // ------------------------------------------------------------ returns and FNE

  /** The epilogue that replaces RET (asm.go:778-812): restore RA if it was saved, pop
      the frame if there is one, and jump through RA. The final JALR adds the frame
      back to the recorded SP adjustment, since later code is reached with the frame
      still in place. */
  function Epilogue(p: Prog, stacksize: int, saveRA: bool): (r: seq<Prog>)
    ensures |r| == 1 + (if saveRA then 1 else 0) + (if stacksize != 0 then 1 else 0)
    ensures r[|r| - 1].op == JALR && r[|r| - 1].to.reg == RegZero && r[|r| - 1].from3 == RegAddr(RegRA)
    ensures saveRA ==> r[0].op == LD && r[0].to == RegAddr(RegRA) && r[0].from3 == RegAddr(RegSP) && r[0].from == ConstAddr(0)
    ensures var k := if saveRA then 1 else 0;
      stacksize != 0 ==>
        r[k].op == ADDI && r[k].from.typ == TypeConst && r[k].from.offset == stacksize &&
        r[k].from3 == RegAddr(RegSP) && r[k].to.typ == TypeReg && r[k].to.reg == RegSP && r[k].spadj == -stacksize
    ensures r[|r| - 1].from.typ == TypeConst && r[|r| - 1].from.offset == 0 && r[|r| - 1].spadj == stacksize
    ensures KeepsTarget(r, p) && TailFixed(r) && AllDone(r)
  {
    var ld := if saveRA then [p.(op := LD, from3 := RegAddr(RegSP), from := ConstAddr(0), to := RegAddr(RegRA))] else [];
    var cur := if saveRA then NewProg else p;
    var pop := if stacksize != 0 then
                 [cur.(op := ADDI, from := cur.from.(typ := TypeConst, offset := stacksize), from3 := RegAddr(RegSP),
                       to := cur.to.(typ := TypeReg, reg := RegSP), spadj := -stacksize)]
               else [];
    var last := if saveRA || stacksize != 0 then NewProg else p;
    ld + pop + [last.(op := JALR, from := last.from.(typ := TypeConst, offset := 0), from3 := RegAddr(RegRA),
                      to := last.to.(typ := TypeReg, reg := RegZero), spadj := stacksize)]
  }

  /** The SP adjustments of a block, summed. */
  function SumSpadj(s: seq<Prog>): int {
    if s == [] then 0 else s[0].spadj + SumSpadj(s[1..])
  }

  /** The epilogue pops exactly the frame (and the final JALR restores the count for the
      code after it), so the adjustments recorded before its JALR sum to -stacksize
      and those of the whole block to 0. */
  lemma EpilogueBalances(p: Prog, stacksize: int, saveRA: bool)
    requires p.spadj == 0
    ensures var r := Epilogue(p, stacksize, saveRA);
      SumSpadj(r[..|r| - 1]) == -stacksize && SumSpadj(r) == 0
  {
    var r := Epilogue(p, stacksize, saveRA);
    SumSpadjAppend(r[..|r| - 1], [r[|r| - 1]]);
    assert r[..|r| - 1] + [r[|r| - 1]] == r;
    if saveRA && stacksize != 0 {
      assert r[..|r| - 1] == [r[0], r[1]];
    } else if saveRA {
      assert r[..|r| - 1] == [r[0]];
    } else if stacksize != 0 {
      assert r[..|r| - 1] == [r[0]];
    } else {
      assert r[..|r| - 1] == [];
    }
  }

  lemma {:induction false} SumSpadjAppend(a: seq<Prog>, b: seq<Prog>)
    ensures SumSpadj(a + b) == SumSpadj(a) + SumSpadj(b)
  {
    if a == [] {
      assert a + b == b;
    } else {
      assert (a + b)[1..] == a[1..] + b;
      SumSpadjAppend(a[1..], b);
    }
  }

  /** FNES rs, rs2, rd becomes FEQS then XORI $1, rd, rd (asm.go:814-838). */
  function LowerFne(p: Prog): (r: Lowered)
    requires p.op == FNES || p.op == FNED
    ensures |r.block| == 2 && KeepsTarget(r.block, p) && TailFixed(r.block) && AllDone(r.block)
    ensures r.diags == [] <==> p.to.typ == TypeReg
    ensures r.block[0].op == (if p.op == FNES then FEQS else FEQD) &&
      r.block[0].from == p.from && r.block[0].from3 == p.from3 && r.block[0].to == p.to
    ensures r.block[1].op == XORI && r.block[1].from == ConstAddr(1) &&
      r.block[1].from3 == RegAddr(p.to.reg) && r.block[1].to == RegAddr(p.to.reg)
  {
    var d := if p.to.typ != TypeReg then ["progedit: FNE needs an integer register output"] else [];
    var dst := p.to.reg;
    Lowered([p.(op := if p.op == FNES then FEQS else FEQD),
             NewProg.(op := XORI, from := ConstAddr(1), from3 := RegAddr(dst), to := RegAddr(dst))], d)
  }

  // --------------------------------------------------------- the rewriting pass

  /** The mnemonics the rewriting pass looks at. */
  predicate Rewritable(op: As) {
    IsMovOp(op) || op == CALL || op == JMP || op == RET || op == FNES || op == FNED
  }

  /** One record of the rewriting pass (asm.go:576-840). What it yields points where
      the record pointed; what it adds after the first record is never rewritable, so
      the source, which continues with the record after the rewritten one, finds
      nothing there to rewrite; and when nothing is reported, nothing of the block is
      left to lower. */
  function RewriteOne(p: Prog, stacksize: int, saveRA: bool): (r: Result<Lowered>)
    ensures r.Failure? ==> IsMovOp(p.op)
    ensures r.Success? ==> 1 <= |r.value.block| <= 3
    ensures !Rewritable(p.op) ==> r == Success(Lowered([p], []))
    ensures r.Success? ==> KeepsTarget(r.value.block, p) && TailFixed(r.value.block)
    ensures r.Success? && r.value.diags == [] ==> AllDone(r.value.block)
  {
    if IsMovOp(p.op) then LowerMov(p)
    else if p.op == CALL then
      if p.to.typ == TypeMem then Success(JalrToSym(p, RegRA)) else Success(Lowered([p], []))
    else if p.op == JMP then
      if p.to.typ == TypeMem && p.to.name == NameExtern then Success(JalrToSym(p, RegZero))
      else Success(Lowered([p], []))
    else if p.op == RET then Success(Lowered(Epilogue(p, stacksize, saveRA), []))
    else if p.op == FNES || p.op == FNED then Success(LowerFne(p))
    else Success(Lowered([p], []))
  }

  /** What the pass leaves for later passes to see is lowered. */
  predicate Done(p: Prog) {
    !(IsMovOp(p.op) || p.op == RET || p.op == FNES || p.op == FNED ||
      (p.op == CALL && p.to.typ == TypeMem) ||
      (p.op == JMP && p.to.typ == TypeMem && p.to.name == NameExtern))
  }

  /** The rewriting pass: each record by RewriteOne, as a step of a pass. */
  function RewriteStep(stacksize: int, saveRA: bool): (step: Prog -> Result<Lowered>)
    ensures Yields(step) && KeepsTargets(step)
  {
    p => RewriteOne(p, stacksize, saveRA)
  }

  /** The rewriting pass over a whole function (asm.go:576-840). */
  function RewritePass(s: seq<Prog>, stacksize: int, saveRA: bool): Result<(seq<Prog>, seq<string>)> {
    PassFrom(s, 0, RewriteStep(stacksize, saveRA), [])
  }

  /** The pass keeps every target pointing into the list and never shortens it. */
  lemma RewritePassClosed(s: seq<Prog>, stacksize: int, saveRA: bool)
    requires TargetsClosed(s) && RewritePass(s, stacksize, saveRA).Success?
    ensures TargetsClosed(RewritePass(s, stacksize, saveRA).value.0)
    ensures |RewritePass(s, stacksize, saveRA).value.0| >= |s|
  {
    PassClosed(s, 0, RewriteStep(stacksize, saveRA), []);
  }

  /** When the whole pass reports nothing, no record is left to lower. */
  lemma RewritePassLowers(s: seq<Prog>, stacksize: int, saveRA: bool)
    requires RewritePass(s, stacksize, saveRA).Success? && RewritePass(s, stacksize, saveRA).value.1 == []
    ensures var r := RewritePass(s, stacksize, saveRA).value.0;
      forall k :: 0 <= k < |r| ==> Done(r[k])
  {
    PassEstablishes(s, 0, RewriteStep(stacksize, saveRA), [], Done);
  }

  // ------------------------------------------------------- splitting immediates

  predicate IsSplitArith(op: As) { op == ADDI || op == ANDI || op == ORI || op == XORI }
  predicate IsSplitLoad(op: As) { op == LD || op == LB || op == LH || op == LW || op == LBU || op == LHU || op == LWU }
  predicate IsSplitStore(op: As) { op == SD || op == SB || op == SH || op == SW }
  predicate IsSplittable(op: As) { IsSplitArith(op) || IsSplitLoad(op) || IsSplitStore(op) }

  /** The register form of an immediate arithmetic mnemonic. */
  function RegisterForm(op: As): (r: As)
    requires IsSplitArith(op)
    ensures Normalize.ImmediateVariant(r) == Some(op)
    ensures r == ADD || r == AND || r == OR || r == XOR
  {
    if op == ADDI then ADD else if op == ANDI then AND else if op == ORI then OR else XOR
  }

  /** One record of the splitting pass (asm.go:843-925). An immediate that needs more
      than 12 bits is loaded into TMP by LUI/ADDIW and the instruction uses TMP; one
      beyond 32 bits is reported and the record is left alone. */
  function SplitOne(p: Prog): (r: Lowered)
    ensures 1 <= |r.block| <= 4 && KeepsTarget(r.block, p)
    ensures |r.block| == 1 ==> r.block[0] == p
    ensures r.diags != [] <==> (IsSplittable(p.op) && !ImmFits(p.from.offset, 32))
  {
    if !IsSplittable(p.op) then Lowered([p], [])
    else match Split32BitImmediate(p.from.offset)
      case Failure(_) => Lowered([p], ["constant too large"])
      case Success(s) =>
        if s.high == 0 then Lowered([p], [])
        else
          SplitWithSafe(p, s.low, s.high);
          Lowered(SplitWith(p, s.low, s.high), [])
  }

  /** The block that replaces a splittable record once its immediate is split into
      (low, high): LUI/ADDIW into TMP, then the original operation on TMP. */
  function SplitWith(p: Prog, low: int, high: int): (b: seq<Prog>)
    requires IsSplittable(p.op)
    ensures 3 <= |b| <= 4 && b[0] == LoadImmIntoRegTmp(p, low, high)[0] && b[1] == LoadImmIntoRegTmp(p, low, high)[1]
    ensures SplitShape(b, p)
  {
    if IsSplitArith(p.op) then SplitArith(p, low, high)
    else if IsSplitLoad(p.op) then SplitLoad(p, low, high)
    else SplitStore(p, low, high)
  }

  /** The split block points where the split record pointed, and every splittable
      record in it has a 12-bit immediate. */
  lemma SplitWithSafe(p: Prog, low: int, high: int)
    requires IsSplittable(p.op)
    ensures var b := SplitWith(p, low, high);
      KeepsTarget(b, p) && forall j :: 0 <= j < |b| ==> Fits(b[j])
  {
    SplitBlockSafe(SplitWith(p, low, high), p);
  }

  /** The shape shared by the three split blocks: LUI and ADDIW into TMP, a record
      that is not splittable and, for memory accesses, one that has offset 0. */
  predicate SplitShape(b: seq<Prog>, p: Prog) {
    3 <= |b| <= 4 && b[0].op == LUI && b[1].op == ADDIW && !IsSplittable(b[2].op) &&
    (|b| == 4 ==> b[3].from.offset == 0) &&
    b[0].pcond == p.pcond && b[1].pcond.None? && b[2].pcond.None? &&
    (|b| == 4 ==> b[3].pcond.None?)
  }

  lemma SplitBlockSafe(b: seq<Prog>, p: Prog)
    requires SplitShape(b, p)
    ensures KeepsTarget(b, p) && forall j :: 0 <= j < |b| ==> Fits(b[j])
  {
    TargetBlock(b, p);
    FitsBlock(b);
  }

  /** A block whose splittable records all have offset 0 fits. */
  lemma FitsBlock(b: seq<Prog>)
    requires forall j :: 0 <= j < |b| ==> !IsSplittable(b[j].op) || b[j].from.offset == 0
    ensures forall j :: 0 <= j < |b| ==> Fits(b[j])
  {
  }

  /** <op>I $imm, R1, R2 becomes LUI/ADDIW into TMP and <op> TMP, R1, R2. */
  function SplitArith(p: Prog, low: int, high: int): (b: seq<Prog>)
    requires IsSplitArith(p.op)
    ensures |b| == 3 && b[0] == LoadImmIntoRegTmp(p, low, high)[0] && b[1] == LoadImmIntoRegTmp(p, low, high)[1]
    ensures b[2].op == RegisterForm(p.op) && b[2].from == RegAddr(RegTmp) && b[2].from3 == p.from3 &&
      b[2].to == p.to && b[2].spadj == p.spadj && b[2].pcond.None?
    ensures SplitShape(b, p)
  {
    var li := LoadImmIntoRegTmp(p, low, high);
    [li[0], li[1], NewProg.(op := RegisterForm(p.op), spadj := p.spadj, to := p.to, from3 := p.from3,
                            from := RegAddr(RegTmp))]
  }

  /** L $imm, R1, R2 (a load of imm(R1)) becomes LUI/ADDIW into TMP, ADD TMP, R1, TMP
      and L $0, TMP, R2. */
  function SplitLoad(p: Prog, low: int, high: int): (b: seq<Prog>)
    requires IsSplitLoad(p.op)
    ensures |b| == 4 && b[0] == LoadImmIntoRegTmp(p, low, high)[0] && b[1] == LoadImmIntoRegTmp(p, low, high)[1]
    ensures b[2].op == ADD && b[2].from == RegAddr(RegTmp) && b[2].from3 == p.from3 && b[2].to == RegAddr(RegTmp)
    ensures b[3].op == p.op && b[3].to == p.to && b[3].from3 == RegAddr(RegTmp) && b[3].from == ConstAddr(0)
    ensures b[2].pcond.None? && b[3].pcond.None?
    ensures SplitShape(b, p)
  {
    var li := LoadImmIntoRegTmp(p, low, high);
    [li[0], li[1], NewProg.(op := ADD, from := RegAddr(RegTmp), from3 := p.from3, to := RegAddr(RegTmp)),
     NewProg.(op := p.op, to := p.to, from := ConstAddr(0), from3 := RegAddr(RegTmp))]
  }

  /** S $imm, R1, R2 (a store of R1 to imm(R2)) becomes LUI/ADDIW into TMP,
      ADD TMP, R2, TMP and S $0, R1, TMP. */
  function SplitStore(p: Prog, low: int, high: int): (b: seq<Prog>)
    requires IsSplitStore(p.op)
    ensures |b| == 4 && b[0] == LoadImmIntoRegTmp(p, low, high)[0] && b[1] == LoadImmIntoRegTmp(p, low, high)[1]
    ensures b[2].op == ADD && b[2].from == RegAddr(RegTmp) && b[2].from3 == RegAddr(p.to.reg) &&
      b[2].to == RegAddr(RegTmp)
    ensures b[3].op == p.op && b[3].from3 == p.from3 && b[3].to == RegAddr(RegTmp) && b[3].from == ConstAddr(0)
    ensures b[2].pcond.None? && b[3].pcond.None?
    ensures SplitShape(b, p)
  {
    var li := LoadImmIntoRegTmp(p, low, high);
    [li[0], li[1], NewProg.(op := ADD, from := RegAddr(RegTmp), from3 := RegAddr(p.to.reg), to := RegAddr(RegTmp)),
     NewProg.(op := p.op, from3 := p.from3, to := RegAddr(RegTmp), from := ConstAddr(0))]
  }

  /** A split keeps the operation: the immediate reaches TMP exactly, and the final
      record applies the original operation (in register form for arithmetic) to the
      original operands, with 0 left as the memory offset. */
  lemma SplitOnePreservesOperation(p: Prog)
    requires IsSplittable(p.op) && ImmFits(p.from.offset, 32) && !ImmFits(p.from.offset, 12)
    ensures var r := SplitOne(p);
      r.diags == [] && r.block[0].op == LUI && r.block[1].op == ADDIW &&
      r.block[0].to == RegAddr(RegTmp) && r.block[1].to == RegAddr(RegTmp) &&
      r.block[1].from3 == RegAddr(RegTmp) &&
      LuiAddiwValue(r.block[0].from.offset, r.block[1].from.offset) == p.from.offset &&
      r.block[|r.block| - 1].op == (if IsSplitArith(p.op) then RegisterForm(p.op) else p.op)
  {
    var s := Split32BitImmediate(p.from.offset).value;
    SplitLoadsImmediate(p.from.offset, s);
    assert SplitOne(p).block == SplitWith(p, s.low, s.high);
  }

  /** When a split reports nothing, every splittable record of the block has a 12-bit
      immediate. */
  lemma SplitOneFits(p: Prog)
    ensures var r := SplitOne(p);
      r.diags == [] ==> forall j :: 0 <= j < |r.block| ==> Fits(r.block[j])
  {
    if IsSplittable(p.op) && ImmFits(p.from.offset, 32) {
      var s := Split32BitImmediate(p.from.offset).value;
      if s.high != 0 {
        assert SplitOne(p).block == SplitWith(p, s.low, s.high);
        SplitWithSafe(p, s.low, s.high);
      } else {
        assert SplitOne(p).block == [p];
        assert ImmFits(p.from.offset, 12);
      }
    }
  }

  /** The splitting pass: each record by SplitOne, as a step of a pass; after a split
      the source continues after the last record it added. */
  function SplitStep(): (step: Prog -> Result<Lowered>)
    ensures Yields(step) && KeepsTargets(step)
    ensures forall p :: step(p) == Success(SplitOne(p))
  {
    p => Success(SplitOne(p))
  }

  /** The splitting pass over a whole function (asm.go:843-925). It cannot fail. */
  function SplitPass(s: seq<Prog>): (r: Result<(seq<Prog>, seq<string>)>)
    ensures r.Success?
  {
    PassTotal(s, 0, SplitStep(), []);
    PassFrom(s, 0, SplitStep(), [])
  }

  /** A splittable record whose immediate fits in 12 bits. */
  predicate Fits(p: Prog) {
    IsSplittable(p.op) ==> ImmFits(p.from.offset, 12)
  }

  /** When the splitting pass reports nothing, every splittable record of its result
      has an immediate of 12 bits. */
  lemma SplitPassFits(s: seq<Prog>)
    requires SplitPass(s).value.1 == []
    ensures var r := SplitPass(s).value.0;
      forall k :: 0 <= k < |r| ==> Fits(r[k])
  {
    forall p | SplitStep()(p).value.diags == []
      ensures forall j :: 0 <= j < |SplitOne(p).block| ==> Fits(SplitOne(p).block[j])
    {
      SplitOneFits(p);
    }
    PassEstablishes(s, 0, SplitStep(), [], Fits);
  }

  /** The splitting pass keeps every target pointing into the list. */
  lemma SplitPassClosed(s: seq<Prog>)
    requires TargetsClosed(s)
    ensures TargetsClosed(SplitPass(s).value.0)
    ensures |SplitPass(s).value.0| >= |s|
  {
    PassTotal(s, 0, SplitStep(), []);
    PassClosed(s, 0, SplitStep(), []);
  }
}
