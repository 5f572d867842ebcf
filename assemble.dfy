/** assemble (asm.go:1771-1832): the machine code of a preprocessed function, one
    32-bit word per record that has a length, the relocations asked for by calls and
    PC-relative AUIPCs, and the little-endian bytes of the code. */
module Assemble {
  import opened Wrappers
  import opened Codec
  import opened Progs
  import opened Encoding
  import Relax

  /** objabi.R_CALLRISCV, R_RISCV_PCREL_ITYPE and R_RISCV_PCREL_STYPE. */
  datatype RelocType = CallRiscv | PcrelIType | PcrelSType

  /** A relocation of the function's code (`obj.Reloc`): at byte `off`, over `siz`
      bytes, against symbol `sym` plus `add`. */
  datatype Reloc = Reloc(off: int, siz: int, sym: string, add: int, typ: RelocType)

  /** What assembling one record asks for: the record as it is then encoded, the
      relocation, and the diagnostics. */
  datatype Prepared = Prepared(p: Prog, reloc: Option<Reloc>, diags: seq<string>)

  /** The relocation part of one record (asm.go:1782-1822). A JALR with a symbol keeps
      that symbol for the linker's stack check. An AUIPC asking for a PC-relative
      relocation needs a following record and a symbol; its offset moves into the
      relocation and is cleared in the record. The offset is `int32(p.Pc)`. */
  function Relocate(s: seq<Prog>, i: nat): (r: Prepared)
    requires i < |s|
    ensures r.p.(from := s[i].from) == s[i] && r.p.from.(offset := s[i].from.offset) == s[i].from
    ensures r.reloc.Some? <==>
      (s[i].op == JALR && s[i].to.sym.Some?) ||
      (s[i].op == AUIPC && (s[i].mark.pcrelIType || s[i].mark.pcrelSType) && i + 1 < |s| && s[i].from.sym.Some?)
    ensures r.reloc.Some? ==> r.reloc.value.off == Wrap32(s[i].pc)
    ensures r.reloc.Some? && s[i].op == JALR ==>
      r.reloc.value == Reloc(Wrap32(s[i].pc), 4, s[i].to.sym.value, s[i].to.offset, CallRiscv) && r.p == s[i]
    ensures r.reloc.Some? && s[i].op == AUIPC ==>
      r.reloc.value.siz == 8 && r.reloc.value.sym == s[i].from.sym.value && r.reloc.value.add == s[i].from.offset &&
      r.reloc.value.typ == (if s[i].mark.pcrelIType then PcrelIType else PcrelSType) && r.p.from.offset == 0
    ensures r.reloc.None? ==> r.p == s[i]
    ensures r.diags != [] <==>
      s[i].op == AUIPC && (s[i].mark.pcrelIType || s[i].mark.pcrelSType) && (i + 1 == |s| || s[i].from.sym.None?)
  {
    var p := s[i];
    if p.op == JALR then
      if p.to.sym.Some? then Prepared(p, Some(Reloc(Wrap32(p.pc), 4, p.to.sym.value, p.to.offset, CallRiscv)), [])
      else Prepared(p, None, [])
    else if p.op == AUIPC && (p.mark.pcrelIType || p.mark.pcrelSType) then
      var t := if p.mark.pcrelIType then PcrelIType else PcrelSType;
      if i + 1 == |s| then Prepared(p, None, ["AUIPC needing PC-relative reloc missing following instruction"])
      else if p.from.sym.None? then Prepared(p, None, ["AUIPC needing PC-relative reloc missing symbol"])
      else Prepared(p.(from := p.from.(offset := 0)), Some(Reloc(Wrap32(p.pc), 8, p.from.sym.value, p.from.offset, t)), [])
    else Prepared(p, None, [])
  }

  /** Machine code, relocations and diagnostics: what one record contributes, and
      what the walk has gathered so far. */
  datatype Output = Output(code: seq<bv32>, relocs: seq<Reloc>, diags: seq<string>)

  const NoOutput: Output := Output([], [], [])

  function Append(a: Output, b: Output): Output {
    Output(a.code + b.code, a.relocs + b.relocs, a.diags + b.diags)
  }

  lemma AppendAssoc(a: Output, b: Output, c: Output)
    ensures Append(Append(a, b), c) == Append(a, Append(b, c))
  {
    ConcatAssoc(a.code, b.code, c.code);
    ConcatAssoc(a.relocs, b.relocs, c.relocs);
    ConcatAssoc(a.diags, b.diags, c.diags);
  }

  lemma AppendNone(a: Output)
    ensures Append(a, NoOutput) == a && Append(NoOutput, a) == a
  {
    assert a.code + [] == a.code && a.relocs + [] == a.relocs && a.diags + [] == a.diags;
  }

  lemma ConcatAssoc<T>(a: seq<T>, b: seq<T>, c: seq<T>)
    ensures a + b + c == a + (b + c)
  {
  }

  /** The relocation record i asks for, as a sequence of at most one. */
  function RelocOf(s: seq<Prog>, i: nat): seq<Reloc>
    requires i < |s|
  {
    if Relocate(s, i).reloc.Some? then [Relocate(s, i).reloc.value] else []
  }

  /** The word record i is encoded into, once its relocation is taken out. */
  function WordOf(table: map<As, InstFields>, s: seq<Prog>, i: nat): Result<bv32>
    requires i < |s|
  {
    Encode(table, EncodingForP(Relocate(s, i).p).0, Relocate(s, i).p)
  }

  /** One record of the walk (asm.go:1780-1825): its relocation, then its word when its
      encoding has a length. An encoder that fails panics in the source. The
      diagnostics of encodingForP are reported a second time here, as the source does. */
  function Emit(table: map<As, InstFields>, s: seq<Prog>, i: nat): (r: Result<Output>)
    requires i < |s|
    ensures r.Success? <==> LengthOf(s[i]) == 0 || WordOf(table, s, i).Success?
    ensures r.Success? ==> |r.value.code| * 4 == LengthOf(s[i]) && r.value.relocs == RelocOf(s, i)
    ensures r.Success? && LengthOf(s[i]) == 4 ==> r.value.code == [WordOf(table, s, i).value]
  {
    var pr := Relocate(s, i);
    Relax.LengthOfOp(pr.p, s[i]);
    var (e, d) := EncodingForP(pr.p);
    if Length(e) > 0 then
      match WordOf(table, s, i)
      case Failure(m) => Failure(m)
      case Success(w) => Success(Output([w], RelocOf(s, i), pr.diags + d))
    else Success(Output([], RelocOf(s, i), pr.diags + d))
  }

  /** The records of s, each assembled by Emit. */
  function Emitter(table: map<As, InstFields>, s: seq<Prog>): nat -> Result<Output> {
    (k: nat) => if k < |s| then Emit(table, s, k) else Success(NoOutput)
  }

  /** The loop over the records from i to n, appending what each contributes; the
      first panic ends it. */
  function Walk(emit: nat -> Result<Output>, n: nat, i: nat, out: Output): Result<Output>
    decreases n - i
  {
    if i >= n then Success(out)
    else match emit(i)
      case Failure(m) => Failure(m)
      case Success(o) => Walk(emit, n, i + 1, Append(out, o))
  }

  /** Every record from i to n is assembled without a panic. */
  ghost predicate Emits(emit: nat -> Result<Output>, i: nat, n: nat) {
    forall k :: i <= k < n ==> emit(k).Success?
  }

  /** What the records from i to n contribute, joined in order. */
  ghost function Joined(emit: nat -> Result<Output>, n: nat, i: nat): Output
    requires Emits(emit, i, n)
    decreases n - i
  {
    if i >= n then NoOutput else Append(emit(i).value, Joined(emit, n, i + 1))
  }

  /** The loop succeeds exactly when no record panics, and then appends the joined
      contributions of all records to what it started with. */
  lemma {:induction false} WalkJoins(emit: nat -> Result<Output>, n: nat, i: nat, out: Output)
    requires i <= n
    ensures Walk(emit, n, i, out).Success? <==> Emits(emit, i, n)
    ensures Walk(emit, n, i, out).Success? ==> Walk(emit, n, i, out).value == Append(out, Joined(emit, n, i))
    decreases n - i
  {
    if i == n {
      AppendNone(out);
    } else if emit(i).Success? {
      var o := emit(i).value;
      WalkJoins(emit, n, i + 1, Append(out, o));
      if Emits(emit, i + 1, n) {
        AppendAssoc(out, o, Joined(emit, n, i + 1));
      }
    }
  }

  /** The contributions of i to n are those of i to k followed by those of k to n. */
  lemma {:induction false} JoinedSplit(emit: nat -> Result<Output>, i: nat, k: nat, n: nat)
    requires i <= k <= n && Emits(emit, i, n)
    ensures Joined(emit, n, i) == Append(Joined(emit, k, i), Joined(emit, n, k))
    decreases k - i
  {
    if i == k {
      AppendNone(Joined(emit, n, k));
    } else {
      JoinedSplit(emit, i + 1, k, n);
      AppendAssoc(emit(i).value, Joined(emit, k, i + 1), Joined(emit, n, k));
    }
  }

  lemma JoinedHead(emit: nat -> Result<Output>, n: nat, k: nat)
    requires k < n && Emits(emit, k, n)
    ensures Joined(emit, n, k).code == emit(k).value.code + Joined(emit, n, k + 1).code
  {
  }

  /** The records before k contribute one word for every 4 bytes of code they take. */
  lemma {:induction false} JoinedCode(table: map<As, InstFields>, s: seq<Prog>, k: nat)
    requires k <= |s| && Emits(Emitter(table, s), 0, k)
    ensures |Joined(Emitter(table, s), k, 0).code| * 4 == Relax.CodeSize(s[..k])
  {
    var e := Emitter(table, s);
    if k > 0 {
      JoinedCode(table, s, k - 1);
      JoinedSplit(e, 0, k - 1, k);
      AppendNone(e(k - 1).value);
      EmitterAt(table, s, k - 1);
      assert s[..k][..k - 1] == s[..k - 1];
    }
  }

  /** The word of record k follows the words of the records before it. */
  lemma JoinedLocates(table: map<As, InstFields>, s: seq<Prog>, k: nat)
    requires k < |s| && Emits(Emitter(table, s), 0, |s|) && LengthOf(s[k]) == 4
    ensures var c := Joined(Emitter(table, s), |s|, 0).code;
      Relax.CodeSize(s[..k]) / 4 < |c| && Success(c[Relax.CodeSize(s[..k]) / 4]) == WordOf(table, s, k)
  {
    var e := Emitter(table, s);
    JoinedSplit(e, 0, k, |s|);
    JoinedCode(table, s, k);
    EmitterAt(table, s, k);
    JoinedHead(e, |s|, k);
  }

  /** A sequence per index, concatenated from i to n. */
  function Concat<T>(f: nat -> seq<T>, n: nat, i: nat): seq<T>
    decreases n - i
  {
    if i >= n then [] else f(i) + Concat(f, n, i + 1)
  }

  /** The relocations asked for by the records from i on, in order. */
  function RelocsFrom(s: seq<Prog>, i: nat): seq<Reloc> {
    Concat((k: nat) => if k < |s| then RelocOf(s, k) else [], |s|, i)
  }

  /** What the emitter does with one record of the list. */
  lemma EmitterAt(table: map<As, InstFields>, s: seq<Prog>, k: nat)
    requires k < |s|
    ensures Emitter(table, s)(k).Success? <==> LengthOf(s[k]) == 0 || WordOf(table, s, k).Success?
    ensures Emitter(table, s)(k).Success? ==> Emitter(table, s)(k).value.relocs == RelocOf(s, k)
    ensures Emitter(table, s)(k).Success? ==> |Emitter(table, s)(k).value.code| * 4 == LengthOf(s[k])
    ensures Emitter(table, s)(k).Success? && LengthOf(s[k]) == 4 ==>
      Emitter(table, s)(k).value.code == [WordOf(table, s, k).value]
  {
  }

  /** The joined relocations are those each contribution carries, as f gives them. */
  lemma {:induction false} JoinedRelocsOf(emit: nat -> Result<Output>, n: nat, i: nat, f: nat -> seq<Reloc>)
    requires Emits(emit, i, n) && forall k :: i <= k < n ==> emit(k).value.relocs == f(k)
    ensures Joined(emit, n, i).relocs == Concat(f, n, i)
    decreases n - i
  {
    if i < n {
      JoinedRelocsOf(emit, n, i + 1, f);
    }
  }

  /** The joined relocations are those the records ask for, in list order. */
  lemma JoinedRelocs(table: map<As, InstFields>, s: seq<Prog>)
    requires Emits(Emitter(table, s), 0, |s|)
    ensures Joined(Emitter(table, s), |s|, 0).relocs == RelocsFrom(s, 0)
  {
    var e := Emitter(table, s);
    var f := (k: nat) => if k < |s| then RelocOf(s, k) else [];
    forall k | 0 <= k < |s|
      ensures e(k).value.relocs == f(k)
    {
      EmitterAt(table, s, k);
    }
    JoinedRelocsOf(e, |s|, 0, f);
  }

  /** The list after the walk: each AUIPC that got a relocation has its offset
      cleared, every other record is as it was. */
  function Relocated(s: seq<Prog>): (r: seq<Prog>)
    ensures |r| == |s| && forall k :: 0 <= k < |s| ==> r[k] == Relocate(s, k).p
    ensures Relax.SameOps(r, s)
  {
    seq(|s|, k requires 0 <= k < |s| => Relocate(s, k).p)
  }

  /** After the walk's first i records: those relocated, the rest as they were. */
  ghost predicate RelocatedUpTo(s: seq<Prog>, t: seq<Prog>, i: nat) {
    |t| == |s| && i <= |s| &&
    (forall k :: 0 <= k < i ==> t[k] == Relocate(s, k).p) &&
    (forall k :: i <= k < |s| ==> t[k] == s[k])
  }

  lemma RelocatedStep(s: seq<Prog>, t: seq<Prog>, i: nat)
    requires RelocatedUpTo(s, t, i) && i < |s|
    ensures RelocatedUpTo(s, t[i := Relocate(s, i).p], i + 1) && t[i] == s[i]
  {
  }

  lemma RelocatedAll(s: seq<Prog>, t: seq<Prog>)
    requires RelocatedUpTo(s, t, |s|)
    ensures t == Relocated(s)
  {
  }

  /** One record of the walk: what it contributes is appended, and the walk goes on. */
  lemma WalkStep(emit: nat -> Result<Output>, n: nat, i: nat, out: Output, o: Output)
    requires i < n && emit(i) == Success(o)
    ensures Walk(emit, n, i, out) == Walk(emit, n, i + 1, Append(out, o))
  {
  }

  /** assemble: a function of no more than its TEXT directive produces nothing (its
      size is left alone); otherwise the walk over the whole list, which also leaves
      the relocated offsets cleared in the list. */
  function AssembleFunc(table: map<As, InstFields>, s: seq<Prog>): Result<(seq<Prog>, Output)> {
    if |s| <= 1 then Success((s, NoOutput))
    else match Walk(Emitter(table, s), |s|, 0, NoOutput)
      case Failure(m) => Failure(m)
      case Success(o) => Success((Relocated(s), o))
  }

  /** assemble panics exactly when a record with a length cannot be encoded. */
  lemma AssembleFuncSucceeds(table: map<As, InstFields>, s: seq<Prog>)
    requires |s| > 1
    ensures AssembleFunc(table, s).Success? <==>
      forall k :: 0 <= k < |s| && LengthOf(s[k]) == 4 ==> WordOf(table, s, k).Success?
  {
    var e := Emitter(table, s);
    WalkJoins(e, |s|, 0, NoOutput);
    forall k | 0 <= k < |s|
      ensures e(k).Success? <==> LengthOf(s[k]) == 0 || WordOf(table, s, k).Success?
    {
      EmitterAt(table, s, k);
    }
  }

  /** With the addresses of setpcs, the code has exactly the size of the function,
      the word of every record with a length is the encoding of that record (with the
      offset of a relocated AUIPC cleared) at its address divided by 4, and the
      relocations are those the records ask for, in order. */
  lemma AssembleFuncPlaces(table: map<As, InstFields>, s: seq<Prog>, k: nat)
    requires |s| > 1 && AssembleFunc(table, s).Success? && Relax.PcsExact(s)
    requires k < |s| && LengthOf(s[k]) == 4
    ensures var o := AssembleFunc(table, s).value.1;
      |o.code| * 4 == Relax.CodeSize(s) && s[k].pc / 4 < |o.code| &&
      WordOf(table, s, k) == Success(o.code[s[k].pc / 4]) && o.relocs == RelocsFrom(s, 0)
  {
    var e := Emitter(table, s);
    WalkJoins(e, |s|, 0, NoOutput);
    AppendNone(Joined(e, |s|, 0));
    JoinedCode(table, s, |s|);
    assert s[..|s|] == s;
    JoinedLocates(table, s, k);
    JoinedRelocs(table, s);
  }

  // ------------------------------------------------------------------- bytes

  /** `binary.LittleEndian.PutUint32`: RISC-V64 is little-endian. */
  function LittleEndian(w: bv32): (b: seq<bv8>)
    ensures |b| == 4
  {
    [(w & 0xff) as bv8, ((w >> 8) & 0xff) as bv8, ((w >> 16) & 0xff) as bv8, ((w >> 24) & 0xff) as bv8]
  }

  function FromLittleEndian(b: seq<bv8>): bv32
    requires |b| == 4
  {
    (b[0] as bv32) | ((b[1] as bv32) << 8) | ((b[2] as bv32) << 16) | ((b[3] as bv32) << 24)
  }

  /** The four bytes of a word give the word back. */
  lemma LittleEndianRoundTrip(w: bv32)
    ensures FromLittleEndian(LittleEndian(w)) == w
  {
  }

  /** The bytes of the code, word after word (asm.go:1827-1830). */
  function Bytes(code: seq<bv32>): (b: seq<bv8>)
    ensures |b| == 4 * |code|
  {
    if code == [] then [] else Bytes(code[..|code| - 1]) + LittleEndian(code[|code| - 1])
  }

  /** Word j of the code is bytes 4j to 4j+3 of the symbol's contents. */
  lemma {:induction false} BytesAt(code: seq<bv32>, j: nat)
    requires j < |code|
    ensures FromLittleEndian(Bytes(code)[4 * j..4 * j + 4]) == code[j]
  {
    var n := |code| - 1;
    var init := code[..n];
    assert Bytes(code) == Bytes(init) + LittleEndian(code[n]);
    if j == n {
      assert Bytes(code)[4 * j..4 * j + 4] == LittleEndian(code[n]);
      LittleEndianRoundTrip(code[n]);
    } else {
      BytesAt(init, j);
      assert Bytes(code)[4 * j..4 * j + 4] == Bytes(init)[4 * j..4 * j + 4];
    }
  }
}
