/** The last stages of preprocess (asm.go:345-355 and 926-1011): instruction addresses,
    the relaxation of branches and jumps whose target is out of reach, the resolution
    of targets into PC-relative offsets, and the final validation. */
module Relax {
  import opened Wrappers
  import opened Codec
  import opened Progs
  import opened Encoding
  import opened Splice
  import Normalize

  /** What the source does when it follows a nil pointer: it panics. */
  const NilDeref: string := "invalid memory address or nil pointer dereference"

  // ---------------------------------------------------------------- addresses

  /** The bytes the records of s take in the machine code. */
  function CodeSize(s: seq<Prog>): (n: int)
    ensures n >= 0 && n % 4 == 0
    decreases |s|
  {
    if s == [] then 0
    else
      var m, l := CodeSize(s[..|s| - 1]), LengthOf(s[|s| - 1]);
      AlignedStep(m, l);
      m + l
  }

  lemma AlignedStep(m: int, l: int)
    requires m % 4 == 0 && (l == 0 || l == 4)
    ensures (m + l) % 4 == 0
  {
    DivModUnique(m + l, m / 4 + l / 4, 0, 4);
  }

  /** setpcs (asm.go:350-355), as the list it leaves: record k is placed at pc plus
      the size of the records before it, and nothing else changes. */
  function SetPcs(s: seq<Prog>, pc: int): (r: seq<Prog>)
    ensures |r| == |s|
  {
    seq(|s|, k requires 0 <= k < |s| => s[k].(pc := pc + CodeSize(s[..k])))
  }

  /** The diagnostics of a walk that reports f(p) at each record p, in order. */
  function Gather(s: seq<Prog>, f: Prog -> seq<string>): seq<string>
    decreases |s|
  {
    if s == [] then [] else Gather(s[..|s| - 1], f) + f(s[|s| - 1])
  }

  /** A walk reports nothing exactly when it reports nothing at any record. */
  lemma {:induction false} GatherEmpty(s: seq<Prog>, f: Prog -> seq<string>)
    ensures Gather(s, f) == [] <==> forall k :: 0 <= k < |s| ==> f(s[k]) == []
    decreases |s|
  {
    if s != [] {
      var t := s[..|s| - 1];
      GatherEmpty(t, f);
      assert forall k :: 0 <= k < |t| ==> t[k] == s[k];
    }
  }

  /** One more record walked adds what it reports at the end. */
  lemma GatherStep(s: seq<Prog>, i: nat, f: Prog -> seq<string>, base: seq<string>, acc: seq<string>)
    requires i < |s| && acc == base + Gather(s[..i], f)
    ensures acc + f(s[i]) == base + Gather(s[..i + 1], f)
  {
    assert s[..i + 1][..i] == s[..i];
  }

  /** The diagnostics encodingForP reports while setpcs walks the list. */
  function EncodingDiags(s: seq<Prog>): seq<string> {
    Gather(s, EncodingDiag)
  }

  function EncodingDiag(p: Prog): seq<string> { EncodingForP(p).1 }

  /** Every record is placed at the size of the records before it. */
  ghost predicate PcsExact(s: seq<Prog>) {
    forall k :: 0 <= k < |s| ==> s[k].pc == CodeSize(s[..k])
  }

  /** Two lists with the same mnemonics, record by record. */
  ghost predicate SameOps(a: seq<Prog>, b: seq<Prog>) {
    |a| == |b| && forall k :: 0 <= k < |a| ==> a[k].op == b[k].op
  }

  /** The length of a record depends on its mnemonic only. */
  lemma LengthOfOp(p: Prog, q: Prog)
    requires p.op == q.op
    ensures EncodingForP(p) == EncodingForP(q)
  {
  }

  lemma {:induction false} CodeSizeOps(a: seq<Prog>, b: seq<Prog>)
    requires SameOps(a, b)
    ensures CodeSize(a) == CodeSize(b)
    decreases |a|
  {
    if a != [] {
      CodeSizeOps(a[..|a| - 1], b[..|b| - 1]);
      LengthOfOp(a[|a| - 1], b[|b| - 1]);
    }
  }

  /** Consecutive records are placed one record length apart, every address is a
      multiple of 4 when the start is, and setpcs changes only addresses. */
  lemma SetPcsPlaces(s: seq<Prog>, pc: int, k: nat)
    requires k < |s|
    ensures SetPcs(s, pc)[k].(pc := s[k].pc) == s[k]
    ensures pc % 4 == 0 ==> SetPcs(s, pc)[k].pc % 4 == 0
    ensures k + 1 < |s| ==> SetPcs(s, pc)[k + 1].pc == SetPcs(s, pc)[k].pc + LengthOf(s[k])
  {
    if k + 1 < |s| {
      assert s[..k + 1][..k] == s[..k];
    }
  }

  /** The list setpcs has walked up to record i: those before it placed, the rest as
      they were. */
  ghost predicate PlacedUpTo(s: seq<Prog>, t: seq<Prog>, pc: int, i: nat) {
    |t| == |s| && i <= |s| &&
    (forall k :: 0 <= k < i ==> t[k] == s[k].(pc := pc + CodeSize(s[..k]))) &&
    (forall k :: i <= k < |s| ==> t[k] == s[k])
  }

  /** One record placed, the one after it still as it was. */
  lemma PlaceStep(s: seq<Prog>, t: seq<Prog>, pc: int, i: nat, at: int)
    requires PlacedUpTo(s, t, pc, i) && i < |s| && at == pc + CodeSize(s[..i])
    ensures t[i] == s[i] && PlacedUpTo(s, t[i := t[i].(pc := at)], pc, i + 1)
  {
  }

  /** The next address is the sum of the lengths so far. */
  lemma CodeSizeStep(s: seq<Prog>, i: nat, pc: int, at: int)
    requires i < |s| && at == pc + CodeSize(s[..i])
    ensures at + Length(EncodingForP(s[i]).0) == pc + CodeSize(s[..i + 1])
  {
    assert s[..i + 1][..i] == s[..i];
  }

  /** A list that places every record as setpcs does is the list setpcs leaves. */
  lemma PlacedAll(s: seq<Prog>, t: seq<Prog>, pc: int)
    requires PlacedUpTo(s, t, pc, |s|)
    ensures t == SetPcs(s, pc)
  {
  }

  /** Placing the records changes no target. */
  lemma SetPcsClosed(s: seq<Prog>, pc: int)
    requires TargetsClosed(s)
    ensures TargetsClosed(SetPcs(s, pc))
  {
    var r := SetPcs(s, pc);
    forall k | 0 <= k < |r| && r[k].pcond.Some?
      ensures r[k].pcond.value < |r|
    {
      assert r[k].pcond == s[k].pcond;
    }
  }

  /** After setpcs from 0 every record is at the size of the code before it. */
  lemma SetPcsExact(s: seq<Prog>)
    ensures PcsExact(SetPcs(s, 0))
  {
    var r := SetPcs(s, 0);
    forall k | 0 <= k < |r|
      ensures r[k].pc == CodeSize(r[..k])
    {
      CodeSizeOps(r[..k], s[..k]);
    }
  }

  /** setpcs reports nothing exactly when every record has an encoding. */
  lemma EncodingDiagsEmpty(s: seq<Prog>)
    ensures EncodingDiags(s) == [] <==> forall k :: 0 <= k < |s| ==> EncodingForP(s[k]).0 != Bad
  {
    GatherEmpty(s, EncodingDiag);
  }

  // --------------------------------------------------------------- relaxation

  /** A conditional branch reaches 12 bits of even offset, a JAL 20. */
  predicate FarBranch(offset: int) { offset < -4096 || 4096 <= offset }
  predicate FarJump(offset: int) { offset < -0x10_0000 || 0x10_0000 <= offset }

  /** A branch too far for its 13-bit offset (asm.go:937-955): it becomes the inverted
      branch over a JAL to the old target; the inverted branch goes to the record that
      followed it, none when there was none. Targets in the indices of s. */
  function LongBranch(s: seq<Prog>, i: nat, inv: As): seq<Prog>
    requires i < |s|
  {
    [s[i].(op := inv, pcond := if i + 1 < |s| then Some(i + 1) else None),
     NewProg.(op := JAL, from := RegAddr(RegZero), to := NoAddr.(typ := TypeBranch), pcond := s[i].pcond)]
  }

  /** A JAL too far for its 21-bit offset (asm.go:956-975): AUIPC into TMP, keeping
      the target, then JALR through TMP linking the JAL's register. */
  function LongJump(p: Prog): seq<Prog> {
    [p.(op := AUIPC, from := NoAddr.(typ := TypeBranch), from3 := NoAddr, to := RegAddr(RegTmp)),
     NewProg.(op := JALR, from := ConstAddr(0), to := p.from, from3 := RegAddr(RegTmp))]
  }

  /** The walk's measure: a branch may still turn into a JAL, and a JAL into a JALR. */
  function StepWeight(op: As): nat {
    if IsCondBranch(op) then 3 else if op == JAL then 2 else 1
  }

  function Weight(s: seq<Prog>): nat {
    if s == [] then 0 else StepWeight(s[0].op) + Weight(s[1..])
  }

  lemma {:induction false} WeightOps(a: seq<Prog>, b: seq<Prog>)
    requires SameOps(a, b)
    ensures Weight(a) == Weight(b)
    decreases |a|
  {
    if a != [] {
      WeightOps(a[1..], b[1..]);
    }
  }

  /** Rewriting a record into itself and a lighter one leaves less to walk. */
  lemma WeightAfterReplace(s: seq<Prog>, i: nat, block: seq<Prog>)
    requires i < |s| && |block| == 2 && StepWeight(block[1].op) < StepWeight(s[i].op)
    ensures Weight(ReplaceAt(s, i, block)[i + 1..]) < Weight(s[i..])
  {
    var r := ReplaceAt(s, i, block);
    assert s[i..][1..] == s[i + 1..];
    var t := [block[1]] + s[i + 1..];
    forall k | 0 <= k < |t|
      ensures r[i + 1..][k].op == t[k].op
    {
      if k == 0 {
        assert r[i + 1] == ShiftProg(block[1], i, 1);
      } else {
        assert r[i + 1 + k] == ShiftProg(s[i + k], i, 1);
      }
    }
    WeightOps(r[i + 1..], t);
    assert t[1..] == s[i + 1..];
  }

  /** The result of one walk of the relaxation loop. */
  datatype Round = Round(progs: seq<Prog>, rescan: bool)

  /** One walk of the relaxation loop from record i (asm.go:930-976), on addresses set
      before the walk: the records it links in keep address 0 until the next walk, as
      in the source. A target outside the list, which the linked list cannot have, is
      treated like a missing one. */
  function RelaxFrom(s: seq<Prog>, i: nat, rescan: bool): Result<Round>
    requires i <= |s|
    decreases Weight(s[i..])
  {
    if i == |s| then Success(Round(s, rescan))
    else
      assert s[i..][1..] == s[i + 1..];
      var p := s[i];
      if IsCondBranch(p.op) then
        if p.to.typ != TypeBranch then Failure("assemble: instruction with branch-like opcode lacks destination")
        else if p.pcond.None? || p.pcond.value >= |s| then Failure(NilDeref)
        else if !FarBranch(s[p.pcond.value].pc - p.pc) then RelaxFrom(s, i + 1, rescan)
        else match Normalize.InvertBranch(p.op)
          case Failure(e) => Failure(e)
          case Success(inv) =>
            WeightAfterReplace(s, i, LongBranch(s, i, inv));
            RelaxFrom(ReplaceAt(s, i, LongBranch(s, i, inv)), i + 1, true)
      else if p.op == JAL then
        if p.pcond.None? || p.pcond.value >= |s| then Failure("intersymbol jumps should be expressed as AUIPC+JALR")
        else if !FarJump(s[p.pcond.value].pc - p.pc) then RelaxFrom(s, i + 1, rescan)
        else
          WeightAfterReplace(s, i, LongJump(p));
          RelaxFrom(ReplaceAt(s, i, LongJump(p)), i + 1, true)
      else RelaxFrom(s, i + 1, rescan)
  }

  /** A record the walk leaves alone: a branch with a target within 12 bits, a JAL with
      a target within 20 bits, or any other record. */
  ghost predicate Settled(s: seq<Prog>, k: nat)
    requires k < |s|
  {
    (IsCondBranch(s[k].op) ==>
      s[k].to.typ == TypeBranch && s[k].pcond.Some? && s[k].pcond.value < |s| &&
      !FarBranch(s[s[k].pcond.value].pc - s[k].pc)) &&
    (s[k].op == JAL ==>
      s[k].pcond.Some? && s[k].pcond.value < |s| && !FarJump(s[s[k].pcond.value].pc - s[k].pc))
  }

  /** Every record of the list is settled. */
  ghost predicate AllSettled(s: seq<Prog>) {
    forall k :: 0 <= k < |s| ==> Settled(s, k)
  }

  /** A walk over settled records changes nothing and keeps the rescan flag. */
  lemma {:induction false} RelaxFromIdle(s: seq<Prog>, i: nat, rescan: bool)
    requires i <= |s| && forall k :: i <= k < |s| ==> Settled(s, k)
    ensures RelaxFrom(s, i, rescan) == Success(Round(s, rescan))
    decreases |s| - i
  {
    if i < |s| {
      assert Settled(s, i);
      RelaxFromIdle(s, i + 1, rescan);
    }
  }

  /** A walk asks for no rescan only when it changed nothing, because every record it
      passed was settled. */
  lemma {:induction false} RelaxFromSettled(s: seq<Prog>, i: nat, rescan: bool)
    requires i <= |s|
    ensures RelaxFrom(s, i, rescan).Success? && !RelaxFrom(s, i, rescan).value.rescan ==>
      !rescan && RelaxFrom(s, i, rescan).value.progs == s && forall k :: i <= k < |s| ==> Settled(s, k)
    decreases Weight(s[i..])
  {
    if i < |s| {
      assert s[i..][1..] == s[i + 1..];
      var p := s[i];
      if IsCondBranch(p.op) && p.to.typ == TypeBranch && p.pcond.Some? && p.pcond.value < |s| &&
         FarBranch(s[p.pcond.value].pc - p.pc) && Normalize.InvertBranch(p.op).Success? {
        var b := LongBranch(s, i, Normalize.InvertBranch(p.op).value);
        WeightAfterReplace(s, i, b);
        RelaxFromSettled(ReplaceAt(s, i, b), i + 1, true);
      } else if p.op == JAL && p.pcond.Some? && p.pcond.value < |s| && FarJump(s[p.pcond.value].pc - p.pc) {
        WeightAfterReplace(s, i, LongJump(p));
        RelaxFromSettled(ReplaceAt(s, i, LongJump(p)), i + 1, true);
      } else {
        RelaxFromSettled(s, i + 1, rescan);
      }
    }
  }

  /** A walk keeps every target inside the list. */
  lemma {:induction false} RelaxFromClosed(s: seq<Prog>, i: nat, rescan: bool)
    requires i <= |s| && TargetsClosed(s) && RelaxFrom(s, i, rescan).Success?
    ensures TargetsClosed(RelaxFrom(s, i, rescan).value.progs)
    decreases Weight(s[i..])
  {
    if i < |s| {
      assert s[i..][1..] == s[i + 1..];
      var p := s[i];
      if IsCondBranch(p.op) && FarBranch(s[p.pcond.value].pc - p.pc) {
        var b := LongBranch(s, i, Normalize.InvertBranch(p.op).value);
        WeightAfterReplace(s, i, b);
        ReplaceAtClosed(s, i, b);
        RelaxFromClosed(ReplaceAt(s, i, b), i + 1, true);
      } else if p.op == JAL && FarJump(s[p.pcond.value].pc - p.pc) {
        WeightAfterReplace(s, i, LongJump(p));
        ReplaceAtClosed(s, i, LongJump(p));
        RelaxFromClosed(ReplaceAt(s, i, LongJump(p)), i + 1, true);
      } else {
        RelaxFromClosed(s, i + 1, rescan);
      }
    }
  }

  /** A far branch rewritten in place: the inverted branch goes to the record that
      followed it, now just past the JAL, and the JAL goes to the old target. */
  lemma LongBranchLinks(s: seq<Prog>, i: nat, inv: As)
    requires i < |s|
    ensures var r := ReplaceAt(s, i, LongBranch(s, i, inv));
      |r| == |s| + 1 && r[i].op == inv && r[i + 1].op == JAL &&
      r[i].pcond == (if i + 1 < |s| then Some(i + 2) else None) &&
      r[i + 1].pcond == ShiftTarget(s[i].pcond, i, 1) &&
      r[i + 1].from == RegAddr(RegZero) && r[i + 1].to.typ == TypeBranch &&
      (i + 1 < |s| ==> r[i + 2] == ShiftProg(s[i + 1], i, 1))
  {
    var r := ReplaceAt(s, i, LongBranch(s, i, inv));
    assert r[i] == ShiftProg(LongBranch(s, i, inv)[0], i, 1);
    assert r[i + 1] == ShiftProg(LongBranch(s, i, inv)[1], i, 1);
  }

  /** A far JAL rewritten in place: AUIPC into TMP keeps the JAL's target, and the JALR
      after it jumps through TMP, linking the JAL's register. */
  lemma LongJumpLinks(s: seq<Prog>, i: nat)
    requires i < |s|
    ensures var r := ReplaceAt(s, i, LongJump(s[i]));
      |r| == |s| + 1 && r[i].op == AUIPC && r[i].from.typ == TypeBranch && r[i].to == RegAddr(RegTmp) &&
      r[i].pcond == ShiftTarget(s[i].pcond, i, 1) &&
      r[i + 1].op == JALR && r[i + 1].from == ConstAddr(0) && r[i + 1].from3 == RegAddr(RegTmp) &&
      r[i + 1].to == s[i].from && r[i + 1].pcond.None? &&
      (i + 1 < |s| ==> r[i + 2] == ShiftProg(s[i + 1], i, 1))
  {
    var r := ReplaceAt(s, i, LongJump(s[i]));
    assert r[i] == ShiftProg(LongJump(s[i])[0], i, 1);
    assert r[i + 1] == ShiftProg(LongJump(s[i])[1], i, 1);
  }

  /** The mnemonics of a list. */
  function Ops(s: seq<Prog>): (r: seq<As>)
    ensures |r| == |s| && forall k :: 0 <= k < |s| ==> r[k] == s[k].op
  {
    seq(|s|, k requires 0 <= k < |s| => s[k].op)
  }

  /** `b` is `a` after one walk: every record is kept in order, except that a far
      branch is followed by the JAL it now jumps over (or by the AUIPC+JALR that JAL
      became later in the same walk) and a far JAL becomes AUIPC+JALR. Nothing is
      removed. */
  ghost predicate WalkRewrites(a: seq<As>, b: seq<As>)
    decreases |a|
  {
    if a == [] then b == []
    else
      (|b| >= 1 && b[0] == a[0] && WalkRewrites(a[1..], b[1..])) ||
      (IsCondBranch(a[0]) && |b| >= 2 && Normalize.InvertBranch(a[0]) == Success(b[0]) &&
        ((b[1] == JAL && WalkRewrites(a[1..], b[2..])) ||
         (|b| >= 3 && b[1] == AUIPC && b[2] == JALR && WalkRewrites(a[1..], b[3..])))) ||
      (a[0] == JAL && |b| >= 2 && b[0] == AUIPC && b[1] == JALR && WalkRewrites(a[1..], b[2..]))
  }

  /** A walk only adds records. */
  lemma {:induction false} WalkRewritesGrows(a: seq<As>, b: seq<As>)
    requires WalkRewrites(a, b)
    ensures |b| >= |a|
    decreases |a|
  {
    if a != [] {
      if |b| >= 1 && b[0] == a[0] && WalkRewrites(a[1..], b[1..]) {
        WalkRewritesGrows(a[1..], b[1..]);
      } else if |b| >= 2 && WalkRewrites(a[1..], b[2..]) {
        WalkRewritesGrows(a[1..], b[2..]);
      } else {
        WalkRewritesGrows(a[1..], b[3..]);
      }
    }
  }

  /** The mnemonics after replacing record i by a block. */
  lemma ReplaceAtOps(s: seq<Prog>, i: nat, block: seq<Prog>)
    requires i < |s| && |block| >= 1
    ensures Ops(ReplaceAt(s, i, block)) == Ops(s)[..i] + Ops(block) + Ops(s)[i + 1..]
  {
    var r := ReplaceAt(s, i, block);
    var t := Ops(s)[..i] + Ops(block) + Ops(s)[i + 1..];
    forall k | 0 <= k < |r|
      ensures Ops(r)[k] == t[k]
    {
      if k < i {
      } else if k < i + |block| {
        assert r[i + (k - i)] == ShiftProg(block[k - i], i, |block| - 1);
      } else {
        assert r[(k - |block| + 1) + |block| - 1] == ShiftProg(s[k - |block| + 1], i, |block| - 1);
      }
    }
  }

  /** A walk that leaves record i as it was. */
  lemma WalkKeeps(a: seq<As>, r: seq<As>, i: nat)
    requires i < |a| && |r| > i && r[..i + 1] == a[..i + 1] && WalkRewrites(a[i + 1..], r[i + 1..])
    ensures r[..i] == a[..i] && WalkRewrites(a[i..], r[i..])
  {
    assert r[..i] == r[..i + 1][..i] && a[..i] == a[..i + 1][..i];
    assert r[i] == r[..i + 1][i] && a[i] == a[..i + 1][i];
    assert a[i..][1..] == a[i + 1..] && r[i..][1..] == r[i + 1..];
  }

  /** A walk that rewrote record i into the two records of blk, then went on from the
      second of them. */
  lemma WalkRewritten(a: seq<As>, a': seq<As>, r: seq<As>, i: nat, blk: seq<As>)
    requires i < |a| && |blk| == 2 && a' == a[..i] + blk + a[i + 1..]
    requires |r| > i && r[..i + 1] == a'[..i + 1] && WalkRewrites(a'[i + 1..], r[i + 1..])
    requires (IsCondBranch(a[i]) && Normalize.InvertBranch(a[i]) == Success(blk[0]) && blk[1] == JAL) ||
             (a[i] == JAL && blk == [AUIPC, JALR])
    ensures r[..i] == a[..i] && WalkRewrites(a[i..], r[i..])
  {
    assert r[..i] == r[..i + 1][..i] && a'[..i + 1][..i] == a[..i];
    assert r[i] == r[..i + 1][i] == blk[0];
    var rest := a'[i + 1..];
    assert rest == [blk[1]] + a[i + 1..];
    assert rest[1..] == a[i + 1..] == a[i..][1..];
    var b := r[i..];
    assert b[1..] == r[i + 1..];
    assert b[1..][1..] == b[2..];
    assert |b| >= 3 ==> b[1..][2..] == b[3..];
  }

  /** `r` is `s` walked from record i: the records before i keep their mnemonics, the
      rest are rewritten as `WalkRewrites` says, and the list never shrinks. */
  ghost predicate WalkedFrom(s: seq<Prog>, i: nat, r: seq<Prog>)
    requires i <= |s|
  {
    |r| >= |s| && Ops(r)[..i] == Ops(s)[..i] && WalkRewrites(Ops(s)[i..], Ops(r)[i..])
  }

  /** One walk from record i keeps the records before i and rewrites the rest as
      `WalkRewrites` says; so the list never shrinks. */
  lemma {:induction false} RelaxFromRewrites(s: seq<Prog>, i: nat, rescan: bool)
    requires i <= |s| && RelaxFrom(s, i, rescan).Success?
    ensures WalkedFrom(s, i, RelaxFrom(s, i, rescan).value.progs)
    decreases Weight(s[i..]), 1
  {
    if i == |s| {
      assert Ops(s)[i..] == [];
    } else {
      var p := s[i];
      if IsCondBranch(p.op) && p.pcond.Some? && p.pcond.value < |s| && FarBranch(s[p.pcond.value].pc - p.pc) {
        RelaxFromRewritesBranch(s, i, rescan);
      } else if p.op == JAL && p.pcond.Some? && p.pcond.value < |s| && FarJump(s[p.pcond.value].pc - p.pc) {
        RelaxFromRewritesJump(s, i, rescan);
      } else {
        assert s[i..][1..] == s[i + 1..];
        assert RelaxFrom(s, i, rescan) == RelaxFrom(s, i + 1, rescan);
        RelaxFromRewrites(s, i + 1, rescan);
        WalkKeeps(Ops(s), Ops(RelaxFrom(s, i, rescan).value.progs), i);
      }
    }
  }

  lemma {:induction false} RelaxFromRewritesBranch(s: seq<Prog>, i: nat, rescan: bool)
    requires i < |s| && RelaxFrom(s, i, rescan).Success?
    requires IsCondBranch(s[i].op) && s[i].pcond.Some? && s[i].pcond.value < |s|
    requires FarBranch(s[s[i].pcond.value].pc - s[i].pc)
    ensures WalkedFrom(s, i, RelaxFrom(s, i, rescan).value.progs)
    decreases Weight(s[i..]), 0
  {
    assert s[i..][1..] == s[i + 1..];
    var inv := Normalize.InvertBranch(s[i].op).value;
    var blk := LongBranch(s, i, inv);
    WeightAfterReplace(s, i, blk);
    assert RelaxFrom(s, i, rescan) == RelaxFrom(ReplaceAt(s, i, blk), i + 1, true);
    RelaxFromRewrites(ReplaceAt(s, i, blk), i + 1, true);
    ReplaceAtOps(s, i, blk);
    WalkRewritten(Ops(s), Ops(ReplaceAt(s, i, blk)), Ops(RelaxFrom(s, i, rescan).value.progs), i, Ops(blk));
  }

  lemma {:induction false} RelaxFromRewritesJump(s: seq<Prog>, i: nat, rescan: bool)
    requires i < |s| && RelaxFrom(s, i, rescan).Success?
    requires s[i].op == JAL && s[i].pcond.Some? && s[i].pcond.value < |s|
    requires FarJump(s[s[i].pcond.value].pc - s[i].pc)
    ensures WalkedFrom(s, i, RelaxFrom(s, i, rescan).value.progs)
    decreases Weight(s[i..]), 0
  {
    assert s[i..][1..] == s[i + 1..];
    var blk := LongJump(s[i]);
    WeightAfterReplace(s, i, blk);
    assert RelaxFrom(s, i, rescan) == RelaxFrom(ReplaceAt(s, i, blk), i + 1, true);
    RelaxFromRewrites(ReplaceAt(s, i, blk), i + 1, true);
    ReplaceAtOps(s, i, blk);
    assert Ops(blk) == [AUIPC, JALR];
    WalkRewritten(Ops(s), Ops(ReplaceAt(s, i, blk)), Ops(RelaxFrom(s, i, rescan).value.progs), i, Ops(blk));
  }

  /** The relaxation loop (asm.go:929-980): set the addresses, walk, and start over
      while a walk rewrote something, for at most `fuel` walks. */
  function RelaxRounds(s: seq<Prog>, fuel: nat, diags: seq<string>): Result<(seq<Prog>, seq<string>)>
    decreases fuel
  {
    if fuel == 0 then Failure("branch relaxation did not settle")
    else
      var d := diags + EncodingDiags(s);
      match RelaxFrom(SetPcs(s, 0), 0, false)
      case Failure(e) => Failure(e)
      case Success(round) => if round.rescan then RelaxRounds(round.progs, fuel - 1, d) else Success((round.progs, d))
  }

  /** With no round left, the loop fails. */
  lemma RelaxRoundsUnsettled(s: seq<Prog>, diags: seq<string>)
    ensures RelaxRounds(s, 0, diags).Failure?
  {
  }

  /** One round of the loop: the walk over the list placed from address 0, then either
      another round on its result or the end. */
  lemma RelaxRoundsStep(s: seq<Prog>, fuel: nat, diags: seq<string>) returns (round: Round, d: seq<string>)
    requires RelaxRounds(s, fuel, diags).Success?
    ensures fuel > 0 && RelaxFrom(SetPcs(s, 0), 0, false) == Success(round)
    ensures d == diags + EncodingDiags(s)
    ensures RelaxRounds(s, fuel, diags) ==
      if round.rescan then RelaxRounds(round.progs, fuel - 1, d) else Success((round.progs, d))
  {
    round, d := RelaxFrom(SetPcs(s, 0), 0, false).value, diags + EncodingDiags(s);
  }

  /** The loop after one walk `w` over the list placed from address 0: a failed walk
      fails it, a walk that rewrote nothing ends it, and any other walk leaves one
      round less for the rest. */
  lemma RelaxRoundsAfter(s: seq<Prog>, fuel: nat, diags: seq<string>, w: Result<Round>)
    requires fuel > 0 && w == RelaxFrom(SetPcs(s, 0), 0, false)
    ensures w.Failure? ==> RelaxRounds(s, fuel, diags).Failure?
    ensures w.Success? && w.value.rescan ==>
      RelaxRounds(s, fuel, diags) == RelaxRounds(w.value.progs, fuel - 1, diags + EncodingDiags(s))
    ensures w.Success? && !w.value.rescan ==>
      RelaxRounds(s, fuel, diags) == Success((w.value.progs, diags + EncodingDiags(s)))
  {
  }

  /** One round keeps every target inside the list. */
  lemma RelaxRoundClosed(s: seq<Prog>, round: Round)
    requires TargetsClosed(s) && RelaxFrom(SetPcs(s, 0), 0, false) == Success(round)
    ensures TargetsClosed(round.progs)
  {
    SetPcsClosed(s, 0);
    RelaxFromClosed(SetPcs(s, 0), 0, false);
  }

  /** One round that asks for no rescan leaves every record placed and settled. */
  lemma RelaxRoundSettles(s: seq<Prog>)
    requires RelaxFrom(SetPcs(s, 0), 0, false).Success? && !RelaxFrom(SetPcs(s, 0), 0, false).value.rescan
    ensures var r := RelaxFrom(SetPcs(s, 0), 0, false).value.progs;
      PcsExact(r) && AllSettled(r)
  {
    RelaxFromSettled(SetPcs(s, 0), 0, false);
    SetPcsExact(s);
  }

  /** When the loop ends, every record sits at its final address and every branch and
      JAL reaches its target. */
  lemma {:induction false} RelaxRoundsSettle(s: seq<Prog>, fuel: nat, diags: seq<string>)
    requires RelaxRounds(s, fuel, diags).Success?
    ensures var r := RelaxRounds(s, fuel, diags).value.0;
      PcsExact(r) && AllSettled(r)
    decreases fuel
  {
    var round, d := RelaxRoundsNext(s, fuel, diags);
    if round.rescan {
      RelaxRoundsSettle(round.progs, fuel - 1, d);
    }
  }

  /** One round of the loop as the proofs about the whole loop use it: the rest of the
      loop after the round, which targets the round keeps closed, and what a last
      round leaves. */
  lemma RelaxRoundsNext(s: seq<Prog>, fuel: nat, diags: seq<string>) returns (round: Round, d: seq<string>)
    requires RelaxRounds(s, fuel, diags).Success?
    ensures fuel > 0 && d == diags + EncodingDiags(s)
    ensures round.rescan ==> RelaxRounds(s, fuel, diags) == RelaxRounds(round.progs, fuel - 1, d)
    ensures !round.rescan ==> RelaxRounds(s, fuel, diags) == Success((round.progs, d))
    ensures !round.rescan ==> PcsExact(round.progs) && AllSettled(round.progs)
    ensures TargetsClosed(s) ==> TargetsClosed(round.progs)
  {
    round, d := RelaxRoundsStep(s, fuel, diags);
    if !round.rescan {
      RelaxRoundSettles(s);
    }
    if TargetsClosed(s) {
      RelaxRoundClosed(s, round);
    }
  }

  /** The loop keeps every target inside the list. */
  lemma {:induction false} RelaxRoundsClosed(s: seq<Prog>, fuel: nat, diags: seq<string>)
    requires TargetsClosed(s) && RelaxRounds(s, fuel, diags).Success?
    ensures TargetsClosed(RelaxRounds(s, fuel, diags).value.0)
    decreases fuel
  {
    var round, d := RelaxRoundsNext(s, fuel, diags);
    if round.rescan {
      RelaxRoundsClosed(round.progs, fuel - 1, d);
    }
  }

  /** The loop only adds diagnostics: those of encodingForP at every walk. */
  lemma {:induction false} RelaxRoundsKeepsDiags(s: seq<Prog>, fuel: nat, diags: seq<string>)
    requires RelaxRounds(s, fuel, diags).Success?
    ensures var d := RelaxRounds(s, fuel, diags).value.1; |d| >= |diags| && d[..|diags|] == diags
    decreases fuel
  {
    var round, d := RelaxRoundsNext(s, fuel, diags);
    assert d[..|diags|] == diags;
    if round.rescan {
      RelaxRoundsKeepsDiags(round.progs, fuel - 1, d);
      var e := RelaxRounds(round.progs, fuel - 1, d).value.1;
      assert e[..|diags|] == e[..|d|][..|diags|];
    }
  }

  // --------------------------------------------------------------- resolution

  /** The records whose target becomes an offset in To. */
  predicate Jumps(op: As) { IsCondBranch(op) || op == JAL }

  /** One record of the resolution walk (asm.go:985-1005). A branch or JAL to a label
      gets the distance to its target as a constant; one to memory is a panic. An AUIPC
      made from a long JAL gets the upper part of the distance, and the JALR after it
      the lower part; a distance beyond 32 bits is reported and both parts are 0. */
  function ResolveStep(s: seq<Prog>, i: nat): (r: Result<(seq<Prog>, seq<string>)>)
    requires i < |s|
    ensures r.Failure? <==>
      (Jumps(s[i].op) && s[i].to.typ == TypeMem) ||
      (Jumps(s[i].op) && s[i].to.typ == TypeBranch && (s[i].pcond.None? || s[i].pcond.value >= |s|)) ||
      (!Jumps(s[i].op) && s[i].op == AUIPC && s[i].from.typ == TypeBranch &&
        (s[i].pcond.None? || s[i].pcond.value >= |s| || i + 1 == |s|))
    ensures r.Success? ==> var t := r.value.0;
      |t| == |s| &&
      (forall k :: 0 <= k < |s| && k != i && k != i + 1 ==> t[k] == s[k]) &&
      (i + 1 < |s| ==> t[i + 1] == s[i + 1].(from := s[i + 1].from.(offset := t[i + 1].from.offset))) &&
      t[i].(from := s[i].from, to := s[i].to) == s[i]
  {
    var p := s[i];
    if Jumps(p.op) then
      if p.to.typ == TypeBranch then
        if p.pcond.None? || p.pcond.value >= |s| then Failure(NilDeref)
        else Success((s[i := p.(to := p.to.(typ := TypeConst, offset := s[p.pcond.value].pc - p.pc))], []))
      else if p.to.typ == TypeMem then Failure("unhandled type")
      else Success((s, []))
    else if p.op == AUIPC && p.from.typ == TypeBranch then
      if p.pcond.None? || p.pcond.value >= |s| then Failure(NilDeref)
      else
        var disp := s[p.pcond.value].pc - p.pc;
        var split := Split32BitImmediate(disp);
        var low := if split.Success? then split.value.low else 0;
        var high := if split.Success? then split.value.high else 0;
        var d := if split.Success? then [] else ["jump displacement too large"];
        if i + 1 == |s| then Failure(NilDeref)
        else Success((s[i := p.(from := ConstAddr(high))][i + 1 := s[i + 1].(from := s[i + 1].from.(offset := low))], d))
    else Success((s, []))
  }

  /** What a step keeps of record j: mnemonic, address and target, and for a record
      after the stepped one also its To operand and the kind of its From operand. */
  lemma ResolveStepKeeps(s: seq<Prog>, i: nat, j: nat)
    requires i < |s| && ResolveStep(s, i).Success? && j < |s|
    ensures var t := ResolveStep(s, i).value.0;
      t[j].op == s[j].op && t[j].pc == s[j].pc && t[j].pcond == s[j].pcond &&
      (j > i ==> t[j].to == s[j].to && t[j].from.typ == s[j].from.typ)
  {
  }

  /** A branch or JAL to a label gets the distance to its target, and only that. */
  lemma ResolveStepJump(s: seq<Prog>, i: nat)
    requires i < |s| && ResolveStep(s, i).Success? && Jumps(s[i].op) && s[i].to.typ == TypeBranch
    ensures var t := ResolveStep(s, i).value.0;
      t[i].to == s[i].to.(typ := TypeConst, offset := s[s[i].pcond.value].pc - s[i].pc) &&
      t[i].from == s[i].from && ResolveStep(s, i).value.1 == []
  {
  }

  /** An AUIPC made from a long JAL gets the upper part of the distance and the record
      after it the lower part; a distance that does not split is reported. */
  lemma ResolveStepAuipc(s: seq<Prog>, i: nat)
    requires i < |s| && ResolveStep(s, i).Success? && !Jumps(s[i].op)
    requires s[i].op == AUIPC && s[i].from.typ == TypeBranch
    ensures var disp := s[s[i].pcond.value].pc - s[i].pc;
      var t := ResolveStep(s, i).value.0;
      t[i].to == s[i].to &&
      (ResolveStep(s, i).value.1 == [] <==> Split32BitImmediate(disp).Success?) &&
      (Split32BitImmediate(disp).Success? ==>
        t[i].from == ConstAddr(Split32BitImmediate(disp).value.high) &&
        t[i + 1].from.offset == Split32BitImmediate(disp).value.low)
  {
  }

  /** Every other record is left as it is. */
  lemma ResolveStepOther(s: seq<Prog>, i: nat)
    requires i < |s| && ResolveStep(s, i).Success?
    requires !(Jumps(s[i].op) && s[i].to.typ == TypeBranch) && !(s[i].op == AUIPC && s[i].from.typ == TypeBranch)
    ensures ResolveStep(s, i) == Success((s, []))
  {
  }

  /** The resolution walk from record i. */
  function ResolveFrom(s: seq<Prog>, i: nat, diags: seq<string>): (r: Result<(seq<Prog>, seq<string>)>)
    requires i <= |s|
    ensures r.Success? ==> |r.value.0| == |s|
    decreases |s| - i
  {
    if i == |s| then Success((s, diags))
    else match ResolveStep(s, i)
      case Failure(e) => Failure(e)
      case Success(step) => ResolveFrom(step.0, i + 1, diags + step.1)
  }

  /** The walk leaves the records before i alone, and keeps the mnemonic, address and
      target of every record. */
  lemma {:induction false} ResolveKeeps(s: seq<Prog>, i: nat, diags: seq<string>)
    requires i <= |s| && ResolveFrom(s, i, diags).Success?
    ensures var r := ResolveFrom(s, i, diags).value.0;
      |r| == |s| && (forall k :: 0 <= k < i ==> r[k] == s[k]) &&
      forall k :: 0 <= k < |s| ==> r[k].op == s[k].op && r[k].pc == s[k].pc && r[k].pcond == s[k].pcond
    decreases |s| - i
  {
    if i < |s| {
      var t := ResolveStep(s, i).value.0;
      ResolveKeeps(t, i + 1, diags + ResolveStep(s, i).value.1);
    }
  }

  /** The walk only adds diagnostics. */
  lemma {:induction false} ResolveKeepsDiags(s: seq<Prog>, i: nat, diags: seq<string>)
    requires i <= |s| && ResolveFrom(s, i, diags).Success?
    ensures var d := ResolveFrom(s, i, diags).value.1; |d| >= |diags| && d[..|diags|] == diags
    decreases |s| - i
  {
    if i < |s| {
      var step := ResolveStep(s, i).value;
      var d := diags + step.1;
      ResolveKeepsDiags(step.0, i + 1, d);
      var e := ResolveFrom(step.0, i + 1, d).value.1;
      assert d[..|diags|] == diags;
      assert e[..|diags|] == e[..|d|][..|diags|];
    }
  }

  /** Every branch and JAL to a label after position i ends up with the distance from
      its own address to its target's as a constant offset. */
  lemma {:induction false} ResolveOffsets(s: seq<Prog>, i: nat, diags: seq<string>)
    requires i <= |s| && ResolveFrom(s, i, diags).Success?
    ensures var r := ResolveFrom(s, i, diags).value.0;
      |r| == |s| &&
      forall k :: i <= k < |s| && Jumps(s[k].op) && s[k].to.typ == TypeBranch ==>
        s[k].pcond.Some? && s[k].pcond.value < |s| &&
        r[k].to == s[k].to.(typ := TypeConst, offset := s[s[k].pcond.value].pc - s[k].pc)
    decreases |s| - i
  {
    if i < |s| {
      var step := ResolveStep(s, i).value;
      var t := step.0;
      ResolveOffsets(t, i + 1, diags + step.1);
      ResolveKeeps(t, i + 1, diags + step.1);
      var r := ResolveFrom(s, i, diags).value.0;
      forall k | i <= k < |s| && Jumps(s[k].op) && s[k].to.typ == TypeBranch
        ensures s[k].pcond.Some? && s[k].pcond.value < |s| &&
          r[k].to == s[k].to.(typ := TypeConst, offset := s[s[k].pcond.value].pc - s[k].pc)
      {
        if k == i {
          ResolveStepJump(s, i);
        } else {
          assert t[k].op == s[k].op && t[k].to == s[k].to && t[k].pcond == s[k].pcond && t[k].pc == s[k].pc;
          assert Jumps(t[k].op) && t[k].to.typ == TypeBranch;
          assert t[k].pcond.Some? && t[k].pcond.value < |t|;
          assert t[s[k].pcond.value].pc == s[s[k].pcond.value].pc;
        }
      }
    }
  }

  /** An AUIPC made from a long JAL, followed by a record that is not one, ends up with
      upper and lower parts that add up to the distance to its target whenever the
      distance is below 0x7FFFF800 in 32 bits: AUIPC then JALR reach the target. */
  lemma ResolveAuipcReaches(s: seq<Prog>, k: nat)
    requires ResolveFrom(s, 0, []).Success? && k < |s|
    requires s[k].op == AUIPC && s[k].from.typ == TypeBranch
    requires k + 1 < |s| ==> !(s[k + 1].op == AUIPC && s[k + 1].from.typ == TypeBranch)
    ensures k + 1 < |s| && s[k].pcond.Some? && s[k].pcond.value < |s|
    ensures var disp := s[s[k].pcond.value].pc - s[k].pc;
      var r := ResolveFrom(s, 0, []).value.0;
      ImmFits(disp, 32) && disp < 0x7fff_f800 ==>
        r[k].from.typ == TypeConst && r[k].from.offset * 4096 + r[k + 1].from.offset == disp
  {
    ResolveReachesFrom(s, 0, [], k);
  }

  lemma {:induction false} ResolveReachesFrom(s: seq<Prog>, i: nat, diags: seq<string>, k: nat)
    requires i <= k < |s| && ResolveFrom(s, i, diags).Success?
    requires s[k].op == AUIPC && s[k].from.typ == TypeBranch
    requires k + 1 < |s| ==> !(s[k + 1].op == AUIPC && s[k + 1].from.typ == TypeBranch)
    ensures k + 1 < |s| && s[k].pcond.Some? && s[k].pcond.value < |s|
    ensures var disp := s[s[k].pcond.value].pc - s[k].pc;
      var r := ResolveFrom(s, i, diags).value.0;
      |r| == |s| &&
      (Split32BitImmediate(disp).Success? ==>
        r[k].from == ConstAddr(Split32BitImmediate(disp).value.high) &&
        r[k + 1].from.offset == Split32BitImmediate(disp).value.low)
    decreases |s| - i
  {
    if k > i {
      var step := ResolveStep(s, i).value;
      var t := step.0;
      assert ResolveFrom(s, i, diags) == ResolveFrom(t, i + 1, diags + step.1);
      ResolveStepKeeps(s, i, k);
      if k + 1 < |s| {
        ResolveStepKeeps(s, i, k + 1);
      }
      ResolveReachesFrom(t, i + 1, diags + step.1, k);
      ResolveStepKeeps(s, i, s[k].pcond.value);
    } else {
      ResolveReachesAt(s, k, diags);
    }
  }

  /** The AUIPC at k itself: its step writes both parts, and the step of the record
      after it, which is no such AUIPC, leaves the lower part alone. */
  lemma ResolveReachesAt(s: seq<Prog>, k: nat, diags: seq<string>)
    requires k < |s| && ResolveFrom(s, k, diags).Success?
    requires s[k].op == AUIPC && s[k].from.typ == TypeBranch
    requires k + 1 < |s| ==> !(s[k + 1].op == AUIPC && s[k + 1].from.typ == TypeBranch)
    ensures k + 1 < |s| && s[k].pcond.Some? && s[k].pcond.value < |s|
    ensures var disp := s[s[k].pcond.value].pc - s[k].pc;
      var r := ResolveFrom(s, k, diags).value.0;
      |r| == |s| &&
      (Split32BitImmediate(disp).Success? ==>
        r[k].from == ConstAddr(Split32BitImmediate(disp).value.high) &&
        r[k + 1].from.offset == Split32BitImmediate(disp).value.low)
  {
    var step := ResolveStep(s, k).value;
    var t := step.0;
    ResolveStepAuipc(s, k);
    assert ResolveFrom(s, k, diags) == ResolveFrom(t, k + 1, diags + step.1);
    assert t[k + 1].op == s[k + 1].op && t[k + 1].from.typ == s[k + 1].from.typ;
    var step2 := ResolveStep(t, k + 1).value;
    if Jumps(t[k + 1].op) && t[k + 1].to.typ == TypeBranch {
      ResolveStepJump(t, k + 1);
    } else {
      ResolveStepOther(t, k + 1);
    }
    assert ResolveFrom(t, k + 1, diags + step.1) == ResolveFrom(step2.0, k + 2, diags + step.1 + step2.1);
    ResolveKeeps(step2.0, k + 2, diags + step.1 + step2.1);
    assert step2.0[k + 1].from == t[k + 1].from;
    assert step2.0[k] == t[k];
  }

  /** After the relaxation has settled, every resolved branch offset fits the 13 bits of
      its encoding and every resolved JAL offset the 21 bits of its own: validation
      finds nothing to report about them. */
  lemma ResolvedJumpsFit(s: seq<Prog>, k: nat)
    requires AllSettled(s) && ResolveFrom(s, 0, []).Success? && k < |s|
    requires Jumps(s[k].op) && s[k].to.typ == TypeBranch
    ensures var r := ResolveFrom(s, 0, []).value.0;
      (IsCondBranch(s[k].op) ==> WantImm(r[k].to, 13) == []) &&
      (s[k].op == JAL ==> WantImm(r[k].to, 21) == [])
  {
    ResolveOffsets(s, 0, []);
    assert Settled(s, k);
    NearFits(s[s[k].pcond.value].pc - s[k].pc);
  }

  /** A near branch offset fits 13 bits and a near jump offset 21. */
  lemma NearFits(offset: int)
    ensures !FarBranch(offset) ==> ImmFits(offset, 13)
    ensures !FarJump(offset) ==> ImmFits(offset, 21)
  {
    Pow2Values();
    assert Pow2(20) == 0x10_0000;
  }

  // --------------------------------------------------------------- validation

  /** The diagnostics of the validation walk (asm.go:1008-1010). */
  function ValidateAll(s: seq<Prog>): seq<string> {
    Gather(s, ValidateP)
  }
}
