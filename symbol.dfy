/** The function symbol the back end works on (`obj.LSym` with its `Func`), and the two
    entry points that change it in place: preprocess (asm.go:420-1011) and assemble
    (asm.go:1771-1832). The linked list of records that starts at `Func.Text` is the
    sequence `progs`; a record's `Link` is the next element and its `Pcond` an index.
    Each loop of the source is a loop here, proved to leave what the corresponding
    function of the model describes. */
module Symbols {
  import opened Wrappers
  import opened Codec
  import opened Progs
  import opened Encoding
  import opened Splice
  import opened Frame
  import Relax
  import Normalize
  import Lowering
  import Pre = Preprocess
  import Asm = Assemble

  class Symbol {
    /** Func.Text and the records linked after it. */
    var progs: seq<Prog>
    /** What ctxt.Diag has reported while this symbol was being worked on. */
    var diags: seq<string>
    /** Func.Args and Func.Locals. */
    var args: int
    var locals: int
    /** Size, P and R: the machine code's length, its bytes and its relocations. */
    var size: int
    var bytes: array<bv8>
    var relocs: seq<Asm.Reloc>

    constructor (s: seq<Prog>)
      ensures progs == s && diags == [] && args == 0 && locals == 0
      ensures size == 0 && fresh(bytes) && bytes.Length == 0 && relocs == []
    {
      progs, diags, args, locals := s, [], 0, 0;
      size, relocs := 0, [];
      bytes := new bv8[0];
    }

    /** containsCall (asm.go:379-393). */
    method ContainsCall() returns (b: bool)
      ensures b == HasCall(progs)
    {
      var i := 0;
      while i < |progs|
        invariant i <= |progs|
        invariant forall k :: 0 <= k < i ==> !IsCall(progs[k])
      {
        var p := progs[i];
        if p.op == CALL {
          return true;
        }
        if (p.op == JAL || p.op == JALR) && p.to.typ == TypeReg && p.to.reg == RegRA {
          return true;
        }
        i := i + 1;
      }
      return false;
    }

    /** setpcs (asm.go:350-355): every record gets the address after those before it.
        encodingForP reports an unknown mnemonic each time it is asked. */
    method SetPcs(pc: int)
      modifies this`progs, this`diags
      ensures progs == Relax.SetPcs(old(progs), pc)
      ensures diags == old(diags) + Relax.EncodingDiags(old(progs))
    {
      ghost var s := progs;
      var at := pc;
      var i := 0;
      while i < |progs|
        invariant Relax.PlacedUpTo(s, progs, pc, i)
        invariant at == pc + Relax.CodeSize(s[..i])
        invariant diags == old(diags) + Relax.Gather(s[..i], Relax.EncodingDiag)
      {
        Relax.PlaceStep(s, progs, pc, i, at);
        Relax.CodeSizeStep(s, i, pc, at);
        Relax.GatherStep(s, i, Relax.EncodingDiag, old(diags), diags);
        var (e, d) := EncodingForP(progs[i]);
        progs := progs[i := progs[i].(pc := at)];
        at := at + Length(e);
        diags := diags + d;
        i := i + 1;
      }
      assert s[..|s|] == s;
      Relax.PlacedAll(s, progs, pc);
    }

    /** The stack-offset loop (asm.go:566-576): every operand's offset rebased. */
    method StackOffsets(stacksize: int)
      modifies this`progs
      ensures progs == StackOffsetAll(old(progs), stacksize)
    {
      var i := 0;
      while i < |progs|
        invariant i <= |progs| == |old(progs)|
        invariant forall k :: 0 <= k < i ==> progs[k] == StackOffsetProg(old(progs)[k], stacksize)
        invariant forall k :: i <= k < |progs| ==> progs[k] == old(progs)[k]
      {
        progs := progs[i := StackOffsetProg(progs[i], stacksize)];
        i := i + 1;
      }
    }

    /** A rewriting walk over the list (asm.go:576-838 with `step` the lowering of one
        record, asm.go:843-925 with `step` the splitting of its immediate): each record
        is replaced by the block it is rewritten into and the walk continues after the
        block. A step that fails is a panic, after which nothing is promised. */
    method RunPass(step: Prog -> Result<Lowered>) returns (ok: bool)
      requires Yields(step)
      modifies this`progs, this`diags
      ensures ok <==> PassFrom(old(progs), 0, step, old(diags)).Success?
      ensures ok ==> (progs, diags) == PassFrom(old(progs), 0, step, old(diags)).value
    {
      var s, d := progs, diags;
      var i: nat := 0;
      while i < |s|
        invariant PassFrom(s, i, step, d) == PassFrom(progs, 0, step, diags)
        decreases |s| - i
      {
        var r := step(s[i]);
        if r.Failure? {
          return false;
        }
        var l := r.value;
        s := ReplaceAt(s, i, l.block);
        d := d + l.diags;
        i := i + |l.block|;
      }
      progs, diags := s, d;
      return true;
    }

    /** One walk of the relaxation loop (asm.go:930-976) over the addresses setpcs
        gave: a branch out of reach becomes the inverted branch over a JAL, a JAL out
        of reach an AUIPC and a JALR, and the walk goes on after the first of the two. */
    method RelaxWalk() returns (ok: bool, rescan: bool)
      modifies this`progs
      ensures ok <==> Relax.RelaxFrom(old(progs), 0, false).Success?
      ensures ok ==> Relax.Round(progs, rescan) == Relax.RelaxFrom(old(progs), 0, false).value
    {
      rescan := false;
      var i := 0;
      while i < |progs|
        invariant i <= |progs|
        invariant Relax.RelaxFrom(progs, i, rescan) == Relax.RelaxFrom(old(progs), 0, false)
        decreases Relax.Weight(progs[i..])
      {
        assert progs[i..][1..] == progs[i + 1..];
        var p := progs[i];
        if IsCondBranch(p.op) {
          if p.to.typ != TypeBranch || p.pcond.None? || p.pcond.value >= |progs| {
            return false, rescan;
          }
          var offset := progs[p.pcond.value].pc - p.pc;
          if offset < -4096 || 4096 <= offset {
            var inv := Normalize.InvertBranch(p.op);
            if inv.Failure? {
              return false, rescan;
            }
            var jmp := NewProg.(op := JAL, from := RegAddr(RegZero), to := NoAddr.(typ := TypeBranch), pcond := p.pcond);
            var block := [p.(op := inv.value, pcond := if i + 1 < |progs| then Some(i + 1) else None), jmp];
            Relax.WeightAfterReplace(progs, i, block);
            progs := ReplaceAt(progs, i, block);
            rescan := true;
          }
        } else if p.op == JAL {
          if p.pcond.None? || p.pcond.value >= |progs| {
            return false, rescan;
          }
          var offset := progs[p.pcond.value].pc - p.pc;
          if offset < -0x10_0000 || 0x10_0000 <= offset {
            var jmp := NewProg.(op := JALR, from := ConstAddr(0), to := p.from, from3 := RegAddr(RegTmp));
            var block := [p.(op := AUIPC, from := NoAddr.(typ := TypeBranch), from3 := NoAddr, to := RegAddr(RegTmp)), jmp];
            Relax.WeightAfterReplace(progs, i, block);
            progs := ReplaceAt(progs, i, block);
            rescan := true;
          }
        }
        i := i + 1;
      }
      return true, rescan;
    }

    /** The relaxation loop (asm.go:929-980): place, walk, and start over while a walk
        rewrote something, for at most `fuel` walks. */
    method RelaxBranches(fuel: nat) returns (ok: bool)
      modifies this`progs, this`diags
      ensures ok <==> Relax.RelaxRounds(old(progs), fuel, old(diags)).Success?
      ensures ok ==> (progs, diags) == Relax.RelaxRounds(old(progs), fuel, old(diags)).value
    {
      ghost var goal := Relax.RelaxRounds(progs, fuel, diags);
      var left := fuel;
      while left > 0
        invariant Relax.RelaxRounds(progs, left, diags) == goal
      {
        var walked, rescan := RelaxRound(left);
        if !walked {
          return false;
        }
        if !rescan {
          return true;
        }
        left := left - 1;
      }
      Relax.RelaxRoundsUnsettled(progs, diags);
      return false;
    }

    /** One round of the relaxation loop, with `left` rounds still allowed: the
        addresses set from 0, then one walk, after which the loop fails with the walk,
        ends, or goes on with one round less. */
    method RelaxRound(ghost left: nat) returns (ok: bool, rescan: bool)
      requires left > 0
      modifies this`progs, this`diags
      ensures !ok ==> Relax.RelaxRounds(old(progs), left, old(diags)).Failure?
      ensures ok && rescan ==> Relax.RelaxRounds(old(progs), left, old(diags)) == Relax.RelaxRounds(progs, left - 1, diags)
      ensures ok && !rescan ==> Relax.RelaxRounds(old(progs), left, old(diags)) == Success((progs, diags))
    {
      ghost var s, d := progs, diags;
      SetPcs(0);
      ok, rescan := RelaxWalk();
      Relax.RelaxRoundsAfter(s, left, d, Relax.RelaxFrom(Relax.SetPcs(s, 0), 0, false));
    }

    /** The resolution walk (asm.go:985-1005): a branch or JAL to a label gets the
        distance to it, an AUIPC made from a long JAL the upper part of the distance and
        the JALR after it the lower part. */
    method Resolve() returns (ok: bool)
      modifies this`progs, this`diags
      ensures ok <==> Relax.ResolveFrom(old(progs), 0, old(diags)).Success?
      ensures ok ==> (progs, diags) == Relax.ResolveFrom(old(progs), 0, old(diags)).value
    {
      var i := 0;
      while i < |progs|
        invariant i <= |progs|
        invariant Relax.ResolveFrom(progs, i, diags) == Relax.ResolveFrom(old(progs), 0, old(diags))
      {
        ghost var step := Relax.ResolveStep(progs, i);
        var p := progs[i];
        var reported: seq<string> := [];
        if Relax.Jumps(p.op) {
          if p.to.typ == TypeBranch {
            if p.pcond.None? || p.pcond.value >= |progs| {
              return false;
            }
            progs := progs[i := p.(to := p.to.(typ := TypeConst, offset := progs[p.pcond.value].pc - p.pc))];
          } else if p.to.typ == TypeMem {
            return false;
          }
        } else if p.op == AUIPC && p.from.typ == TypeBranch {
          if p.pcond.None? || p.pcond.value >= |progs| {
            return false;
          }
          var split := Split32BitImmediate(progs[p.pcond.value].pc - p.pc);
          var low, high := 0, 0;
          if split.Success? {
            low, high := split.value.low, split.value.high;
          } else {
            reported := ["jump displacement too large"];
          }
          if i + 1 == |progs| {
            return false;
          }
          progs := progs[i := p.(from := ConstAddr(high))][i + 1 := progs[i + 1].(from := progs[i + 1].from.(offset := low))];
        }
        assert step == Success((progs, reported));
        diags := diags + reported;
        i := i + 1;
      }
      return true;
    }

    /** The validation walk (asm.go:1008-1010). */
    method Validate()
      modifies this`diags
      ensures diags == old(diags) + Relax.ValidateAll(progs)
    {
      var i := 0;
      while i < |progs|
        invariant i <= |progs|
        invariant diags == old(diags) + Relax.Gather(progs[..i], ValidateP)
      {
        Relax.GatherStep(progs, i, ValidateP, old(diags), diags);
        diags := diags + ValidateP(progs[i]);
        i := i + 1;
      }
      assert progs[..|progs|] == progs;
    }

    /** preprocess (asm.go:420-1011). `textArgs` is the TEXT directive's argument size
        (`p.To.Val`). A panic is `ok == false`, after which nothing is promised. */
    method Preprocess(lim: StackLimits, cfunc: bool, fuel: nat, textArgs: int) returns (ok: bool)
      modifies this`progs, this`diags, this`args, this`locals
      ensures ok <==> Pre.Preprocess(old(progs), lim, cfunc, fuel, old(diags)).Success?
      ensures ok ==> var r := Pre.Preprocess(old(progs), lim, cfunc, fuel, old(diags)).value;
        progs == r.progs && diags == r.diags &&
        if r.layout.Some? then args == textArgs && locals == Wrap32(r.layout.value.stacksize)
        else args == old(args) && locals == old(locals)
    {
      if |progs| == 0 {
        return false;
      }
      if progs[0].op != TEXT {
        diags := diags + [Pre.NoText];
        return true;
      }
      ok := PreprocessText(lim, cfunc, fuel, textArgs);
    }

    /** preprocess of a function that starts with its TEXT directive. */
    method PreprocessText(lim: StackLimits, cfunc: bool, fuel: nat, textArgs: int) returns (ok: bool)
      requires |progs| >= 1 && progs[0].op == TEXT
      modifies this`progs, this`diags, this`args, this`locals
      ensures var l := Pre.LayoutOf(old(progs));
        var r := Pre.FromRewrite(Pre.Prepare(old(progs), lim, cfunc), l, fuel, old(diags));
        (ok <==> r.Success?) &&
        (ok ==> (progs, diags) == r.value && args == textArgs && locals == Wrap32(l.stacksize))
    {
      ghost var goal := Pre.FromRewrite(Pre.Prepare(progs, lim, cfunc), Pre.LayoutOf(progs), fuel, diags);
      var l := Prepare(lim, cfunc, textArgs);
      assert goal == Pre.FromRewrite(progs, l, fuel, diags);
      ok := RunStages(l, fuel);
    }

    /** The first part of preprocess (asm.go:430-576): the frame, the flag word written
        back into TEXT, Args and Locals, the prologue and the WRAPPER fix-up linked in,
        and the stack offsets rebased. */
    method Prepare(lim: StackLimits, cfunc: bool, textArgs: int) returns (l: Layout)
      requires |progs| >= 1 && progs[0].op == TEXT
      modifies this`progs, this`args, this`locals
      ensures l == Pre.LayoutOf(old(progs)) && progs == Pre.Prepare(old(progs), lim, cfunc)
      ensures args == textArgs && locals == Wrap32(l.stacksize)
    {
      ghost var s := progs;
      var p := progs[0];
      var stacksize := p.to.offset;
      var flags := p.from3.offset;
      if stacksize < 0 {
        flags := SetFlag(flags, NOFRAME);
        stacksize := 0;
      }
      var saveRA := ContainsCall();
      if HasFlag(flags, NOFRAME) {
        saveRA := false;
      }
      if saveRA {
        stacksize := stacksize + 8;
      }
      args := textArgs;
      locals := Wrap32(stacksize);
      l := Layout(stacksize, saveRA, flags);
      assert l == Pre.LayoutOf(s);
      progs := progs[0 := p.(from3 := p.from3.(offset := flags))];
      Link(l, lim, cfunc);
    }

    /** The prologue and the WRAPPER fix-up linked in (asm.go:453-564), and the stack
        offsets rebased (asm.go:566-576). */
    method Link(l: Layout, lim: StackLimits, cfunc: bool)
      requires |progs| >= 1
      modifies this`progs
      ensures progs == Pre.Link(old(progs), l, lim, cfunc)
    {
      var pro := Prologue(l, lim, cfunc);
      progs := InsertAfter(progs, 0, pro);
      if HasFlag(l.flags, WRAPPER) {
        progs := WrapperCheck(progs, |pro|, l.stacksize);
      }
      StackOffsets(l.stacksize);
    }

    /** The rest of preprocess (asm.go:576-1010): the two rewriting passes, the
        relaxation loop, the resolution walk and the validation walk. */
    method RunStages(l: Layout, fuel: nat) returns (ok: bool)
      modifies this`progs, this`diags
      ensures ok <==> Pre.FromRewrite(old(progs), l, fuel, old(diags)).Success?
      ensures ok ==> (progs, diags) == Pre.FromRewrite(old(progs), l, fuel, old(diags)).value
    {
      ok := RunPass(Lowering.RewriteStep(l.stacksize, l.saveRA));
      if !ok {
        return;
      }
      ghost var goal := Pre.FromSplit(progs, fuel, diags);
      assert goal == Pre.FromRewrite(old(progs), l, fuel, old(diags));
      ok := RunPass(Lowering.SplitStep());
      if !ok {
        return;
      }
      assert goal == Pre.FromRelax(progs, fuel, diags);
      ok := RelaxBranches(fuel);
      if !ok {
        return;
      }
      assert goal == Pre.FromResolve(progs, diags);
      ok := Resolve();
      if !ok {
        return;
      }
      Validate();
    }

    /** assemble (asm.go:1771-1832): the machine code of every record with a length,
        the relocations, and the code's bytes in P. A list of no more than the TEXT
        directive is left alone. A record its encoder cannot encode is a panic. */
    method Assemble(table: map<As, InstFields>) returns (ok: bool)
      modifies this`progs, this`diags, this`relocs, this`size, this`bytes
      ensures ok <==> Asm.AssembleFunc(table, old(progs)).Success?
      ensures ok ==> var (s, o) := Asm.AssembleFunc(table, old(progs)).value;
        progs == s && relocs == old(relocs) + o.relocs && diags == old(diags) + o.diags &&
        if |old(progs)| <= 1 then size == old(size) && bytes == old(bytes)
        else size == 4 * |o.code| && fresh(bytes) && bytes[..] == Asm.Bytes(o.code)
    {
      if |progs| <= 1 {
        return true;
      }
      ghost var s := progs;
      ghost var out := Asm.NoOutput;
      ghost var emit := Asm.Emitter(table, s);
      var code: seq<bv32> := [];
      var i := 0;
      while i < |progs|
        invariant i <= |s| && Asm.RelocatedUpTo(s, progs, i)
        invariant code == out.code && relocs == old(relocs) + out.relocs && diags == old(diags) + out.diags
        invariant Asm.Walk(emit, |s|, i, out) == Asm.Walk(emit, |s|, 0, Asm.NoOutput)
      {
        var emitted, word := AssembleRecord(table, s, i);
        assert emit(i) == Asm.Emit(table, s, i);
        if !emitted {
          return false;
        }
        ghost var o := Asm.Emit(table, s, i).value;
        Asm.WalkStep(emit, |s|, i, out, o);
        Asm.ConcatAssoc(old(relocs), out.relocs, o.relocs);
        Asm.ConcatAssoc(old(diags), out.diags, o.diags);
        code := code + word;
        out := Asm.Append(out, o);
        i := i + 1;
      }
      Asm.RelocatedAll(s, progs);
      PutCode(code);
      ok := true;
    }

    /** One record of assemble's walk (asm.go:1781-1825) over the list `s` as it was
        when the walk began: the record relocated, then its word when its encoding has
        a length. */
    method AssembleRecord(table: map<As, InstFields>, ghost s: seq<Prog>, i: nat) returns (ok: bool, word: seq<bv32>)
      requires Asm.RelocatedUpTo(s, progs, i) && i < |s|
      modifies this`progs, this`relocs, this`diags
      ensures Asm.RelocatedUpTo(s, progs, i + 1)
      ensures ok <==> Asm.Emit(table, s, i).Success?
      ensures ok ==> var o := Asm.Emit(table, s, i).value;
        word == o.code && relocs == old(relocs) + o.relocs && diags == old(diags) + o.diags
    {
      var p := RelocateRecord(s, i);
      var (e, d) := EncodingForP(p);
      Asm.ConcatAssoc(old(diags), Asm.Relocate(s, i).diags, d);
      diags := diags + d;
      if Length(e) > 0 {
        var w := Encode(table, e, p);
        if w.Failure? {
          return false, [];
        }
        word := [w.value];
      } else {
        word := [];
      }
      ok := true;
    }

    /** The relocation a call or a PC-relative AUIPC asks for (asm.go:1781-1818), and
        the AUIPC's offset cleared once it is in the relocation. */
    method RelocateRecord(ghost s: seq<Prog>, i: nat) returns (p: Prog)
      requires Asm.RelocatedUpTo(s, progs, i) && i < |s|
      modifies this`progs, this`relocs, this`diags
      ensures Asm.RelocatedUpTo(s, progs, i + 1) && p == Asm.Relocate(s, i).p
      ensures relocs == old(relocs) + Asm.RelocOf(s, i) && diags == old(diags) + Asm.Relocate(s, i).diags
    {
      p := progs[i];
      var rel: seq<Asm.Reloc> := [];
      var pd: seq<string> := [];
      if p.op == JALR {
        if p.to.sym.Some? {
          rel := [Asm.Reloc(Wrap32(p.pc), 4, p.to.sym.value, p.to.offset, Asm.CallRiscv)];
        }
      } else if p.op == AUIPC && (p.mark.pcrelIType || p.mark.pcrelSType) {
        var t := if p.mark.pcrelIType then Asm.PcrelIType else Asm.PcrelSType;
        if i + 1 == |progs| {
          pd := ["AUIPC needing PC-relative reloc missing following instruction"];
        } else if p.from.sym.None? {
          pd := ["AUIPC needing PC-relative reloc missing symbol"];
        } else {
          rel := [Asm.Reloc(Wrap32(p.pc), 8, p.from.sym.value, p.from.offset, t)];
          p := p.(from := p.from.(offset := 0));
        }
      }
      Asm.RelocatedStep(s, progs, i);
      ghost var pr := Asm.Relocate(s, i);
      assert p == pr.p && rel == Asm.RelocOf(s, i) && pd == pr.diags;
      progs := progs[i := p];
      relocs := relocs + rel;
      diags := diags + pd;
    }

    /** The end of assemble (asm.go:1826-1831): Size is the code's length, and P, grown
        to it, holds every word in little-endian order. It grows to a fresh buffer:
        every byte of it is written, so what the old one held does not show. */
    method PutCode(code: seq<bv32>)
      modifies this`size, this`bytes
      ensures size == 4 * |code| && fresh(bytes) && bytes[..] == Asm.Bytes(code)
    {
      var buf := new bv8[4 * |code|];
      var j := 0;
      while j < |code|
        invariant j <= |code|
        invariant buf[..4 * j] == Asm.Bytes(code[..j])
      {
        var w := code[j];
        buf[4 * j] := (w & 0xff) as bv8;
        buf[4 * j + 1] := ((w >> 8) & 0xff) as bv8;
        buf[4 * j + 2] := ((w >> 16) & 0xff) as bv8;
        buf[4 * j + 3] := ((w >> 24) & 0xff) as bv8;
        assert code[..j + 1][..j] == code[..j];
        assert buf[..4 * (j + 1)] == buf[..4 * j] + Asm.LittleEndian(w);
        j := j + 1;
      }
      assert code[..|code|] == code;
      assert buf[..] == buf[..4 * |code|];
      size, bytes := 4 * |code|, buf;
    }
  }
}
