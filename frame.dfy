/** The frame of a function (asm.go:419-574 and 1013-1156): the text flags read from
    the TEXT directive, the frame size, whether RA is saved, the stack-split check and
    the prologue linked in after TEXT, and the rebasing of stack-relative operands. */
module Frame {
  import opened Wrappers
  import opened Codec
  import opened Progs
  import opened Splice
  import Lowering

  // ---------------------------------------------------------------- text flags

  // The bits of a TEXT directive's flag word (package obj's textflag constants).
  const NOSPLIT: int := 4
  const WRAPPER: int := 32
  const NEEDCTXT: int := 64
  const NOFRAME: int := 512

  /** `flags & flag != 0` for a one-bit flag, on the two's complement pattern of flags
      (Euclidean division by a positive number rounds down). */
  predicate HasFlag(flags: int, flag: int)
    requires flag > 0
  {
    (flags / flag) % 2 == 1
  }

  /** `flags |= flag` for a one-bit flag. */
  function SetFlag(flags: int, flag: int): (r: int)
    requires flag > 0
  {
    if HasFlag(flags, flag) then flags else flags + flag
  }

  /** Setting NOFRAME sets it and leaves NOSPLIT and NEEDCTXT as they were, so the
      checks made after it on the updated word see the flags the function declared. */
  lemma SetNoFrameKeepsFlags(flags: int)
    ensures HasFlag(SetFlag(flags, NOFRAME), NOFRAME)
    ensures HasFlag(SetFlag(flags, NOFRAME), NOSPLIT) == HasFlag(flags, NOSPLIT)
    ensures HasFlag(SetFlag(flags, NOFRAME), NEEDCTXT) == HasFlag(flags, NEEDCTXT)
  {
    if !HasFlag(flags, NOFRAME) {
      var x := flags + NOFRAME;
      DivModUnique(x, flags / NOFRAME + 1, flags % NOFRAME, NOFRAME);
      ModStep(flags / NOFRAME, 1);
      DivModUnique(x, flags / NOSPLIT + 128, flags % NOSPLIT, NOSPLIT);
      ModStep(flags / NOSPLIT, 64);
      DivModUnique(x, flags / NEEDCTXT + 8, flags % NEEDCTXT, NEEDCTXT);
      ModStep(flags / NEEDCTXT, 4);
    }
  }

  /** Adding 2k changes no parity; adding 1 to an even number makes it odd. */
  lemma ModStep(q: int, k: int)
    ensures (q + 2 * k) % 2 == q % 2
    ensures q % 2 != 1 ==> (q + 1) % 2 == 1
  {
    DivModUnique(q + 2 * k, q / 2 + k, q % 2, 2);
    if q % 2 != 1 {
      DivModUnique(q + 1, q / 2, 1, 2);
    }
  }

  // -------------------------------------------------------------- frame layout

  /** What preprocess decides about a frame: its size in bytes, whether RA is saved
      at its bottom, and the flag word written back to the TEXT directive. */
  datatype Layout = Layout(stacksize: int, saveRA: bool, flags: int)

  /** The frame of a function declaring a frame of `declared` bytes with flag word
      `flags`, containing a call or not (asm.go:437-451). A negative size means no
      frame: it counts as 0 and NOFRAME is set. RA is saved when the function calls
      and NOFRAME is clear, and saving it takes 8 more bytes. */
  function FrameLayout(declared: int, flags: int, hasCall: bool): (r: Layout)
    ensures r.stacksize >= 0
    ensures r.saveRA <==> hasCall && !HasFlag(r.flags, NOFRAME)
    ensures r.stacksize == (if declared < 0 then 0 else declared) + (if r.saveRA then 8 else 0)
    ensures declared < 0 ==> HasFlag(r.flags, NOFRAME) && !r.saveRA && r.stacksize == 0
    ensures declared >= 0 ==> r.flags == flags
    ensures HasFlag(r.flags, NOSPLIT) == HasFlag(flags, NOSPLIT)
    ensures HasFlag(r.flags, NEEDCTXT) == HasFlag(flags, NEEDCTXT)
  {
    SetNoFrameKeepsFlags(flags);
    var flags' := if declared < 0 then SetFlag(flags, NOFRAME) else flags;
    var stacksize := if declared < 0 then 0 else declared;
    var saveRA := hasCall && !HasFlag(flags', NOFRAME);
    Layout(if saveRA then stacksize + 8 else stacksize, saveRA, flags')
  }

  /** A function without a frame is one that declares none and saves nothing. */
  lemma FrameEmpty(declared: int, flags: int, hasCall: bool)
    ensures FrameLayout(declared, flags, hasCall).stacksize == 0 <==>
      declared <= 0 && !FrameLayout(declared, flags, hasCall).saveRA
  {
  }

  // ----------------------------------------------------------------- calls

  /** A record that calls: CALL, or JAL/JALR linking through RA (asm.go:379-393). */
  predicate IsCall(p: Prog) {
    p.op == CALL || ((p.op == JAL || p.op == JALR) && p.to.typ == TypeReg && p.to.reg == RegRA)
  }

  /** containsCall: some record of the function calls. */
  predicate HasCall(s: seq<Prog>) {
    exists k :: 0 <= k < |s| && IsCall(s[k])
  }

  // ------------------------------------------------------------ stack offsets

  /** stackOffset (asm.go:66-75): an AUTO offset is relative to SP on entry and moves
      up by the frame size; a PARAM offset moves up by the frame and the caller's RA
      slot. */
  function StackOffset(a: Addr, stacksize: int): Addr {
    if a.name == NameAuto then a.(offset := a.offset + stacksize)
    else if a.name == NameParam then a.(offset := a.offset + stacksize + 8)
    else a
  }

  /** stackOffset applied to operands From, From3 and To of a record (asm.go:566-574). */
  function StackOffsetProg(p: Prog, stacksize: int): Prog {
    p.(from := StackOffset(p.from, stacksize), from3 := StackOffset(p.from3, stacksize),
       to := StackOffset(p.to, stacksize))
  }

  /** The rebasing puts the locals inside the frame, above the RA slot at 0(SP) when RA
      is saved, and the arguments above the caller's RA slot at stacksize(SP); it
      changes nothing but offsets. */
  lemma StackOffsetPlacesOperands(a: Addr, declared: int, flags: int, hasCall: bool)
    requires declared >= 0
    ensures var l := FrameLayout(declared, flags, hasCall);
      var r := StackOffset(a, l.stacksize);
      r.(offset := a.offset) == a &&
      (a.name == NameAuto && -declared <= a.offset < 0 ==>
        (if l.saveRA then 8 else 0) <= r.offset < l.stacksize) &&
      (a.name == NameParam && a.offset >= 0 ==> r.offset >= l.stacksize + 8) &&
      (a.name != NameAuto && a.name != NameParam ==> r == a)
  {
  }

  /** The records of s, each with its stack offsets rebased (asm.go:566-576). */
  function StackOffsetAll(s: seq<Prog>, stacksize: int): (r: seq<Prog>)
    ensures |r| == |s|
  {
    seq(|s|, k requires 0 <= k < |s| => StackOffsetProg(s[k], stacksize))
  }

  /** Rebasing changes operand offsets only: mnemonics, targets and everything but
      the three operands stay, so the list stays closed. */
  lemma StackOffsetAllKeeps(s: seq<Prog>, stacksize: int)
    ensures var r := StackOffsetAll(s, stacksize);
      forall k :: 0 <= k < |s| ==>
        r[k].(from := s[k].from, from3 := s[k].from3, to := s[k].to) == s[k] &&
        r[k].from.(offset := s[k].from.offset) == s[k].from &&
        r[k].from3.(offset := s[k].from3.offset) == s[k].from3 &&
        r[k].to.(offset := s[k].to.offset) == s[k].to
    ensures TargetsClosed(s) ==> TargetsClosed(StackOffsetAll(s, stacksize))
  {
    var r := StackOffsetAll(s, stacksize);
    assert forall k :: 0 <= k < |s| ==> r[k].pcond == s[k].pcond;
  }

  // ------------------------------------------------------------ wrappers

  /** ctxt.FixedFrameSize() on RISC-V64: the caller's RA slot. */
  const FixedFrameSize: int := PtrSize

  /** The panic fix-up of a WRAPPER function (asm.go:486-564). After the prologue,
      whose last record is at index `at`, it links in a load of g.panic, a branch taken
      when it is set and a NOP to come back to; at the end of the function it adds the
      fix-up, which moves panic.argp to the bottom of the frame when it points at this
      function's arguments, and jumps back to the NOP. */
  function WrapperCheck(s: seq<Prog>, at: nat, stacksize: int): (r: seq<Prog>)
    requires at < |s|
    ensures |r| == |s| + 9
  {
    InsertAfter(s, at, WrapperHead(|s| + 3)) + WrapperTail(at + 3, stacksize)
  }

  /** The records linked in after the prologue: load g.panic, branch to `getargp` when
      it is set, and the NOP the fix-up comes back to. */
  function WrapperHead(getargp: nat): (h: seq<Prog>)
    ensures |h| == 3
  {
    [NewProg.(op := MOV, from := NoAddr.(typ := TypeMem, reg := RegG, offset := 4 * PtrSize), to := RegAddr(RegA1)),
     NewProg.(op := BNE, from := RegAddr(RegA1), reg := RegZero, to := NoAddr.(typ := TypeBranch), pcond := Some(getargp)),
     NewProg.(op := NOP)]
  }

  /** The records added at the end: compare panic.argp with the arguments' address,
      go back to `endadj` when they differ, or store the caller's address into it and
      go back to `endadj`. */
  function WrapperTail(endadj: nat, stacksize: int): (t: seq<Prog>)
    ensures |t| == 6
  {
    [NewProg.(op := MOV, from := NoAddr.(typ := TypeMem, reg := RegA1), to := RegAddr(RegA2)),
     NewProg.(op := ADDI, from := ConstAddr(stacksize + FixedFrameSize), from3 := RegAddr(RegSP), to := RegAddr(RegA3)),
     NewProg.(op := BNE, from := RegAddr(RegA2), reg := RegA3, to := NoAddr.(typ := TypeBranch), pcond := Some(endadj)),
     NewProg.(op := ADDI, from := ConstAddr(PtrSize), from3 := RegAddr(RegSP), to := RegAddr(RegA2)),
     NewProg.(op := MOV, from := RegAddr(RegA2), to := NoAddr.(typ := TypeMem, reg := RegA1)),
     NewProg.(op := JAL, from := RegAddr(RegZero), to := NoAddr.(typ := TypeBranch), pcond := Some(endadj))]
  }

  /** The shape of the fix-up: the records of s keep their order around the three
      linked in after the prologue, the branch on g.panic goes to the load of
      panic.argp at the start of the added tail, and the comparison with the
      arguments' address and the final jump both come back to the NOP. */
  lemma WrapperCheckShape(s: seq<Prog>, at: nat, stacksize: int)
    requires at < |s|
    ensures var r := WrapperCheck(s, at, stacksize);
      (forall k :: 0 <= k <= at ==> r[k] == ShiftProg(s[k], at, 3)) &&
      (forall k :: at < k < |s| ==> r[k + 3] == ShiftProg(s[k], at, 3)) &&
      r[at + 1].op == MOV && r[at + 1].from == NoAddr.(typ := TypeMem, reg := RegG, offset := 32) &&
      r[at + 2].op == BNE && r[at + 2].pcond == Some(|s| + 3) && r[at + 3].op == NOP &&
      r[|s| + 3].op == MOV && r[|s| + 3].from == NoAddr.(typ := TypeMem, reg := RegA1) &&
      r[|s| + 4].from == ConstAddr(stacksize + 8) &&
      r[|s| + 5].op == BNE && r[|s| + 5].pcond == Some(at + 3) &&
      r[|s| + 8].op == JAL && r[|s| + 8].pcond == Some(at + 3)
  {
    var head, tail := WrapperHead(|s| + 3), WrapperTail(at + 3, stacksize);
    var m := InsertAfter(s, at, head);
    var r := WrapperCheck(s, at, stacksize);
    assert r == m + tail;
    forall k | 0 <= k <= at
      ensures r[k] == ShiftProg(s[k], at, 3)
    {
      assert r[k] == m[k];
    }
    forall k | at < k < |s|
      ensures r[k + 3] == ShiftProg(s[k], at, 3)
    {
      assert r[k + 3] == m[k + 3];
    }
    assert r[at + 1] == m[at + 1] == head[0] && r[at + 2] == m[at + 2] == head[1] && r[at + 3] == m[at + 3] == head[2];
    assert r[|s| + 3] == tail[0] && r[|s| + 4] == tail[1] && r[|s| + 5] == tail[2] && r[|s| + 8] == tail[5];
  }

  /** The fix-up keeps every target inside the list. */
  lemma WrapperCheckClosed(s: seq<Prog>, at: nat, stacksize: int)
    requires at < |s| && TargetsClosed(s)
    ensures TargetsClosed(WrapperCheck(s, at, stacksize))
  {
    var r := WrapperCheck(s, at, stacksize);
    var m := InsertAfter(s, at, r[at + 1..at + 4]);
    forall k | 0 <= k < |r| && r[k].pcond.Some?
      ensures r[k].pcond.value < |r|
    {
      if k <= at {
        assert r[k] == ShiftProg(s[k], at, 3);
      } else if k <= at + 3 {
      } else if k < |m| {
        assert r[(k - 3) + 3] == ShiftProg(s[k - 3], at, 3);
      }
    }
  }

  // --------------------------------------------------------- the stack check

  /** The runtime's stack-limit constants (objabi.StackSmall, StackBig, StackGuard and
      StackPreempt). */
  datatype StackLimits = StackLimits(small: int, big: int, guard: int, preempt: int)

  const PtrSize: int := 8

  /** The routine that grows the stack for the function (asm.go:1139-1145). */
  function MorestackSym(cfunc: bool, flags: int): string {
    if cfunc then "runtime.morestackc"
    else if !HasFlag(flags, NEEDCTXT) then "runtime.morestack_noctxt"
    else "runtime.morestack"
  }

  /** The number of records comparing SP with the guard, by frame size. */
  function CheckLength(framesize: int, lim: StackLimits): int {
    if framesize <= lim.small then 2 else if framesize <= lim.big then 3 else 7
  }

  function Branch(op: As, from: int, reg: int, target: nat): Prog {
    NewProg.(op := op, from := RegAddr(from), reg := reg, to := NoAddr.(typ := TypeBranch), pcond := Some(target))
  }

  /** The comparison of SP with the stack guard (asm.go:1019-1130), branching to index
      `done` when the frame fits and, for a huge frame, to `more` when the guard asks
      for preemption. */
  function StackCheck(framesize: int, lim: StackLimits, cfunc: bool, done: nat, more: nat): (r: seq<Prog>)
    ensures |r| == CheckLength(framesize, lim)
  {
    var guard := NewProg.(op := MOV, from := NoAddr.(typ := TypeMem, reg := RegG,
                                                     offset := if cfunc then 3 * PtrSize else 2 * PtrSize),
                          to := RegAddr(RegA0));
    if framesize <= lim.small then
      [guard, Branch(BLTU, RegA0, RegSP, done)]
    else if framesize <= lim.big then
      [guard,
       NewProg.(op := ADDI, from := ConstAddr(-framesize), from3 := RegAddr(RegSP), to := RegAddr(RegA1)),
       Branch(BLTU, RegA0, RegA1, done)]
    else
      [guard,
       NewProg.(op := MOV, from := ConstAddr(lim.preempt), to := RegAddr(RegA1)),
       Branch(BEQ, RegA0, RegA1, more),
       NewProg.(op := ADDI, from := ConstAddr(lim.guard), from3 := RegAddr(RegSP), to := RegAddr(RegA1)),
       NewProg.(op := SUB, from := RegAddr(RegA0), from3 := RegAddr(RegA1), to := RegAddr(RegA1)),
       NewProg.(op := MOV, from := ConstAddr(framesize + lim.guard - lim.small), to := RegAddr(RegA0)),
       Branch(BLTU, RegA0, RegA1, done)]
  }

  /** The call of the stack-growing routine: CALL through T0, lowered at once. */
  function MorestackCall(cfunc: bool, flags: int): (r: seq<Prog>)
    ensures |r| == 3 && r[0].op == AUIPC && r[0].from.sym == Some(MorestackSym(cfunc, flags))
    ensures r[2].op == JALR && r[2].to.reg == RegT0 && r[2].to.sym == Some(MorestackSym(cfunc, flags))
    ensures forall j :: 0 <= j < 3 ==> r[j].pcond.None? && r[j].spadj == 0
  {
    var call := NewProg.(op := CALL, reg := RegT0, to := NoAddr.(typ := TypeBranch, sym := Some(MorestackSym(cfunc, flags))));
    Lowering.JalrToSym(call, RegT0).block
  }

  /** stacksplit (asm.go:1013-1156): the block linked in after TEXT, so that block[j]
      becomes record j + 1 and its targets are written in those indices. A function
      with no frame gets none. Otherwise the check is followed by the call of the
      stack-growing routine, a jump back to the start of the check, and a NOP that the
      check branches to when the stack is large enough. */
  function StackSplit(framesize: int, lim: StackLimits, cfunc: bool, flags: int): (r: seq<Prog>)
    ensures framesize == 0 <==> r == []
    ensures framesize != 0 ==> |r| == CheckLength(framesize, lim) + 5
  {
    if framesize == 0 then []
    else
      var n := CheckLength(framesize, lim);
      StackCheck(framesize, lim, cfunc, n + 5, n + 1) + MorestackCall(cfunc, flags) +
      [NewProg.(op := JAL, from := RegAddr(RegZero), to := NoAddr.(typ := TypeBranch), pcond := Some(1)),
       NewProg.(op := NOP)]
  }

  /** The shape of the stack-split block: it loads the guard of the current goroutine
      (stackguard1 for C functions, stackguard0 otherwise), every branch of the check
      goes to the final NOP except the preemption test, which goes to the call of the
      stack-growing routine, the jump after that call returns to the load of the
      guard, and no target leaves the block. */
  lemma StackSplitShape(framesize: int, lim: StackLimits, cfunc: bool, flags: int)
    requires framesize != 0
    ensures var r := StackSplit(framesize, lim, cfunc, flags);
      var n := |r|;
      r[0].op == MOV && r[0].from.typ == TypeMem && r[0].from.reg == RegG &&
      r[0].from.offset == (if cfunc then 24 else 16) && r[0].to == RegAddr(RegA0) &&
      r[n - 5].op == AUIPC && r[n - 5].from.sym == Some(MorestackSym(cfunc, flags)) &&
      r[n - 3].op == JALR && r[n - 3].to.reg == RegT0 &&
      r[n - 2].op == JAL && r[n - 2].pcond == Some(1) && r[n - 1].op == NOP &&
      (forall j :: 0 <= j < n && IsCondBranch(r[j].op) ==>
        r[j].pcond == if r[j].op == BEQ then Some(n - 4) else Some(n)) &&
      TargetsBelow(r, n + 1)
  {
    var n := CheckLength(framesize, lim);
    var c := StackCheck(framesize, lim, cfunc, n + 5, n + 1);
    var m := MorestackCall(cfunc, flags);
    var t := [NewProg.(op := JAL, from := RegAddr(RegZero), to := NoAddr.(typ := TypeBranch), pcond := Some(1)),
              NewProg.(op := NOP)];
    var r := StackSplit(framesize, lim, cfunc, flags);
    assert r == c + m + t;
    StackCheckShape(framesize, lim, cfunc, n + 5, n + 1);
    forall j | 0 <= j < |r|
      ensures r[j] == if j < n then c[j] else if j < n + 3 then m[j - n] else t[j - n - 3]
    {
    }
  }

  /** The comparison loads the guard first, its branches go to `done` except the
      preemption test (BEQ), which goes to `more`, and it has no other targets. */
  lemma StackCheckShape(framesize: int, lim: StackLimits, cfunc: bool, done: nat, more: nat)
    ensures var c := StackCheck(framesize, lim, cfunc, done, more);
      c[0].op == MOV && c[0].from.typ == TypeMem && c[0].from.reg == RegG &&
      c[0].from.offset == (if cfunc then 24 else 16) && c[0].to == RegAddr(RegA0) &&
      forall j :: 0 <= j < |c| ==>
        (IsCondBranch(c[j].op) ==> c[j].pcond == if c[j].op == BEQ then Some(more) else Some(done)) &&
        (!IsCondBranch(c[j].op) ==> c[j].pcond.None?)
  {
  }

  /** The comparisons of the three regimes. A small frame branches on BLTU A0, SP: the
      guard below SP. A big frame computes A1 = SP - framesize and branches on BLTU A0,
      A1. A huge frame first goes to the growing call when the guard is StackPreempt
      (BEQ A0, A1 with A1 = StackPreempt), then computes A1 = SP + StackGuard - guard and
      A0 = framesize + StackGuard - StackSmall, and branches on BLTU A0, A1. */
  lemma StackCheckCompares(framesize: int, lim: StackLimits, cfunc: bool, done: nat, more: nat)
    ensures var c := StackCheck(framesize, lim, cfunc, done, more);
      var last := c[|c| - 1];
      last.op == BLTU && last.from == RegAddr(RegA0) && last.to.typ == TypeBranch &&
      (framesize <= lim.small ==> |c| == 2 && last.reg == RegSP) &&
      (lim.small < framesize <= lim.big ==>
        |c| == 3 && last.reg == RegA1 &&
        c[1].op == ADDI && c[1].from == ConstAddr(-framesize) && c[1].from3 == RegAddr(RegSP) &&
        c[1].to == RegAddr(RegA1)) &&
      (lim.small < framesize && lim.big < framesize ==>
        |c| == 7 && last.reg == RegA1 &&
        c[1].op == MOV && c[1].from == ConstAddr(lim.preempt) && c[1].to == RegAddr(RegA1) &&
        c[2].op == BEQ && c[2].from == RegAddr(RegA0) && c[2].reg == RegA1 &&
        c[3].op == ADDI && c[3].from == ConstAddr(lim.guard) && c[3].from3 == RegAddr(RegSP) &&
        c[3].to == RegAddr(RegA1) &&
        c[4].op == SUB && c[4].from == RegAddr(RegA0) && c[4].from3 == RegAddr(RegA1) &&
        c[4].to == RegAddr(RegA1) &&
        c[5].op == MOV && c[5].from == ConstAddr(framesize + lim.guard - lim.small) &&
        c[5].to == RegAddr(RegA0))
  {
  }

  /** The check grows no stack: no record of the block adjusts SP. */
  lemma {:induction false} StackSplitKeepsSP(framesize: int, lim: StackLimits, cfunc: bool, flags: int)
    ensures Lowering.SumSpadj(StackSplit(framesize, lim, cfunc, flags)) == 0
  {
    if framesize != 0 {
      var n := CheckLength(framesize, lim);
      var c := StackCheck(framesize, lim, cfunc, n + 5, n + 1);
      var m := MorestackCall(cfunc, flags);
      var t := [NewProg.(op := JAL, from := RegAddr(RegZero), to := NoAddr.(typ := TypeBranch), pcond := Some(1)),
                NewProg.(op := NOP)];
      Lowering.SumSpadjAppend(c, m);
      Lowering.SumSpadjAppend(c + m, t);
      ZeroSpadj(c);
      ZeroSpadj(m);
      ZeroSpadj(t);
    }
  }

  lemma {:induction false} ZeroSpadj(s: seq<Prog>)
    requires forall j :: 0 <= j < |s| ==> s[j].spadj == 0
    ensures Lowering.SumSpadj(s) == 0
  {
    if s != [] {
      ZeroSpadj(s[1..]);
    }
  }

  // ---------------------------------------------------------------- prologue

  /** The records linked in after TEXT (asm.go:457-484): the stack-split check unless
      the function is NOSPLIT, the allocation of the frame if it has one, and the store
      of RA at 0(SP) if RA is saved. */
  function Prologue(l: Layout, lim: StackLimits, cfunc: bool): (r: seq<Prog>)
    ensures l.saveRA ==> |r| >= 1
    ensures l.saveRA ==> (r[|r| - 1].op == SD && r[|r| - 1].from3 == RegAddr(RegRA) &&
      r[|r| - 1].to == RegAddr(RegSP) && r[|r| - 1].from == ConstAddr(0))
    ensures l.stacksize == 0 && !l.saveRA && HasFlag(l.flags, NOSPLIT) ==> r == []
    ensures var split := if HasFlag(l.flags, NOSPLIT) then [] else StackSplit(l.stacksize, lim, cfunc, l.flags);
      var n := |split|;
      |r| == n + (if l.stacksize != 0 then 1 else 0) + (if l.saveRA then 1 else 0) && r[..n] == split &&
      (l.stacksize != 0 ==>
        r[n].op == ADDI && r[n].from == ConstAddr(-l.stacksize) && r[n].from3 == RegAddr(RegSP) &&
        r[n].to == RegAddr(RegSP) && r[n].spadj == l.stacksize)
  {
    var split := if !HasFlag(l.flags, NOSPLIT) then StackSplit(l.stacksize, lim, cfunc, l.flags) else [];
    var alloc := if l.stacksize != 0 then
                   [NewProg.(op := ADDI, from := ConstAddr(-l.stacksize), from3 := RegAddr(RegSP),
                             to := RegAddr(RegSP), spadj := l.stacksize)]
                 else [];
    var save := if l.saveRA then [NewProg.(op := SD, from3 := RegAddr(RegRA), to := RegAddr(RegSP), from := ConstAddr(0))] else [];
    split + alloc + save
  }

  /** The prologue allocates exactly the frame, and an epilogue frees it again before
      its final jump: SP is back where it was on entry when the function returns. */
  lemma PrologueAllocatesFrame(l: Layout, lim: StackLimits, cfunc: bool, ret: Prog)
    requires ret.spadj == 0
    ensures Lowering.SumSpadj(Prologue(l, lim, cfunc)) == l.stacksize
    ensures var e := Lowering.Epilogue(ret, l.stacksize, l.saveRA);
      Lowering.SumSpadj(Prologue(l, lim, cfunc)) + Lowering.SumSpadj(e[..|e| - 1]) == 0
  {
    var split := if !HasFlag(l.flags, NOSPLIT) then StackSplit(l.stacksize, lim, cfunc, l.flags) else [];
    var alloc := if l.stacksize != 0 then
                   [NewProg.(op := ADDI, from := ConstAddr(-l.stacksize), from3 := RegAddr(RegSP),
                             to := RegAddr(RegSP), spadj := l.stacksize)]
                 else [];
    var save := if l.saveRA then [NewProg.(op := SD, from3 := RegAddr(RegRA), to := RegAddr(RegSP), from := ConstAddr(0))] else [];
    assert Prologue(l, lim, cfunc) == split + alloc + save;
    StackSplitKeepsSP(l.stacksize, lim, cfunc, l.flags);
    Lowering.SumSpadjAppend(split, alloc);
    Lowering.SumSpadjAppend(split + alloc, save);
    ZeroSpadj(save);
    if l.stacksize != 0 { ZeroSpadj(alloc[1..]); } else { ZeroSpadj(alloc); }
    Lowering.EpilogueBalances(ret, l.stacksize, l.saveRA);
  }

  /** The targets of the prologue stay inside the records it adds after TEXT. */
  lemma PrologueClosed(l: Layout, lim: StackLimits, cfunc: bool)
    ensures var r := Prologue(l, lim, cfunc); TargetsBelow(r, |r| + 1)
  {
    var split := if !HasFlag(l.flags, NOSPLIT) then StackSplit(l.stacksize, lim, cfunc, l.flags) else [];
    if split != [] {
      StackSplitShape(l.stacksize, lim, cfunc, l.flags);
    }
  }
}
