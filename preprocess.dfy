/** preprocess (asm.go:420-1011) as a whole: the frame, the prologue, the WRAPPER
    fix-up, the stack offsets, the rewriting and splitting passes, the relaxation loop,
    the resolution of targets and the final validation, in the order of the source.
    Diagnostics are threaded through every stage, as ctxt.Diag appends to one log. */
module Preprocess {
  import opened Wrappers
  import opened Progs
  import opened Encoding
  import opened Splice
  import opened Frame
  import opened Relax
  import Lowering

  const NoText: string := "preprocess: found symbol that does not start with TEXT directive"

  /** What preprocess leaves: the list, the diagnostics, and the frame it decided on
      (none when it returned at once). */
  datatype Preprocessed = Preprocessed(progs: seq<Prog>, diags: seq<string>, layout: Option<Layout>)

  /** The frame of the function whose TEXT directive is s[0], with containsCall
      answered on the list as it arrives (asm.go:437-451). */
  function LayoutOf(s: seq<Prog>): Layout
    requires |s| >= 1
  {
    FrameLayout(s[0].to.offset, s[0].from3.offset, HasCall(s))
  }

  /** Everything before the rewriting pass (asm.go:437-576): the flag word written back
      into TEXT, the prologue linked in after it, the WRAPPER fix-up linked in after
      the prologue, and every record's stack offsets rebased. */
  function Prepare(s: seq<Prog>, lim: StackLimits, cfunc: bool): (r: seq<Prog>)
    requires |s| >= 1
  {
    var l := LayoutOf(s);
    Link(s[0 := s[0].(from3 := s[0].from3.(offset := l.flags))], l, lim, cfunc)
  }

  /** The prologue linked in after TEXT, the WRAPPER fix-up after the prologue, and
      every record's stack offsets rebased. */
  function Link(t: seq<Prog>, l: Layout, lim: StackLimits, cfunc: bool): (r: seq<Prog>)
    requires |t| >= 1
  {
    var pro := Prologue(l, lim, cfunc);
    var s1 := InsertAfter(t, 0, pro);
    var s2 := if HasFlag(l.flags, WRAPPER) then WrapperCheck(s1, |pro|, l.stacksize) else s1;
    StackOffsetAll(s2, l.stacksize)
  }

  /** preprocess. A list without a first record makes the source follow a nil pointer;
      one that does not start with TEXT is reported and left alone. A panic of any
      stage is a Failure. `fuel` bounds the rounds of the relaxation loop. */
  function Preprocess(s: seq<Prog>, lim: StackLimits, cfunc: bool, fuel: nat, diags: seq<string>): Result<Preprocessed>
  {
    if s == [] then Failure(NilDeref)
    else if s[0].op != TEXT then Success(Preprocessed(s, diags + [NoText], None))
    else match FromRewrite(Prepare(s, lim, cfunc), LayoutOf(s), fuel, diags)
      case Failure(e) => Failure(e)
      case Success(r) => Success(Preprocessed(r.0, r.1, Some(LayoutOf(s))))
  }

  /** preprocess from its rewriting pass (asm.go:576-838) on. */
  function FromRewrite(s: seq<Prog>, l: Layout, fuel: nat, diags: seq<string>): Result<(seq<Prog>, seq<string>)> {
    match PassFrom(s, 0, Lowering.RewriteStep(l.stacksize, l.saveRA), diags)
    case Failure(e) => Failure(e)
    case Success(r) => FromSplit(r.0, fuel, r.1)
  }

  /** preprocess from its splitting pass (asm.go:843-925) on. */
  function FromSplit(s: seq<Prog>, fuel: nat, diags: seq<string>): Result<(seq<Prog>, seq<string>)> {
    match PassFrom(s, 0, Lowering.SplitStep(), diags)
    case Failure(e) => Failure(e)
    case Success(r) => FromRelax(r.0, fuel, r.1)
  }

  /** preprocess from its relaxation loop (asm.go:929-980) on. */
  function FromRelax(s: seq<Prog>, fuel: nat, diags: seq<string>): Result<(seq<Prog>, seq<string>)> {
    match RelaxRounds(s, fuel, diags)
    case Failure(e) => Failure(e)
    case Success(r) => FromResolve(r.0, r.1)
  }

  /** preprocess from its resolution walk (asm.go:985-1005) on, ending with the
      validation walk (asm.go:1008-1010). */
  function FromResolve(s: seq<Prog>, diags: seq<string>): Result<(seq<Prog>, seq<string>)> {
    match ResolveFrom(s, 0, diags)
    case Failure(e) => Failure(e)
    case Success(r) => Success((r.0, r.1 + ValidateAll(r.0)))
  }

  /** The stages of a successful preprocess, named. */
  lemma Stages(s: seq<Prog>, lim: StackLimits, cfunc: bool, fuel: nat, diags: seq<string>)
    returns (l: Layout, prepared: seq<Prog>, rewritten: (seq<Prog>, seq<string>), split: (seq<Prog>, seq<string>),
             relaxed: (seq<Prog>, seq<string>), resolved: (seq<Prog>, seq<string>))
    requires Preprocess(s, lim, cfunc, fuel, diags).Success? && Preprocess(s, lim, cfunc, fuel, diags).value.layout.Some?
    ensures |s| >= 1 && s[0].op == TEXT && l == LayoutOf(s) && prepared == Prepare(s, lim, cfunc)
    ensures PassFrom(prepared, 0, Lowering.RewriteStep(l.stacksize, l.saveRA), diags) == Success(rewritten)
    ensures PassFrom(rewritten.0, 0, Lowering.SplitStep(), rewritten.1) == Success(split)
    ensures RelaxRounds(split.0, fuel, split.1) == Success(relaxed)
    ensures ResolveFrom(relaxed.0, 0, relaxed.1) == Success(resolved)
    ensures Preprocess(s, lim, cfunc, fuel, diags).value ==
      Preprocessed(resolved.0, resolved.1 + ValidateAll(resolved.0), Some(l))
  {
    l := LayoutOf(s);
    prepared := Prepare(s, lim, cfunc);
    rewritten := PassFrom(prepared, 0, Lowering.RewriteStep(l.stacksize, l.saveRA), diags).value;
    split := PassFrom(rewritten.0, 0, Lowering.SplitStep(), rewritten.1).value;
    relaxed := RelaxRounds(split.0, fuel, split.1).value;
    resolved := ResolveFrom(relaxed.0, 0, relaxed.1).value;
  }

  /** A list that does not start with TEXT is reported once and left as it is; only
      an empty list makes preprocess fail without running a stage. */
  lemma PreprocessNoText(s: seq<Prog>, lim: StackLimits, cfunc: bool, fuel: nat, diags: seq<string>)
    ensures s == [] <==> Preprocess(s, lim, cfunc, fuel, diags) == Failure(NilDeref) && s == []
    ensures s != [] && s[0].op != TEXT ==>
      Preprocess(s, lim, cfunc, fuel, diags) == Success(Preprocessed(s, diags + [NoText], None))
    ensures Preprocess(s, lim, cfunc, fuel, diags).Success? ==>
      (Preprocess(s, lim, cfunc, fuel, diags).value.layout.None? <==> s[0].op != TEXT)
  {
  }

  /** What is prepared keeps every target inside the list. */
  lemma PrepareClosed(s: seq<Prog>, lim: StackLimits, cfunc: bool)
    requires |s| >= 1 && TargetsClosed(s)
    ensures TargetsClosed(Prepare(s, lim, cfunc))
  {
    var l := LayoutOf(s);
    var t := s[0 := s[0].(from3 := s[0].from3.(offset := l.flags))];
    assert forall k :: 0 <= k < |t| ==> t[k].pcond == s[k].pcond;
    var pro := Prologue(l, lim, cfunc);
    PrologueClosed(l, lim, cfunc);
    assert TargetsBelow(pro, |t| + |pro|);
    InsertAfterClosed(t, 0, pro);
    var s1 := InsertAfter(t, 0, pro);
    if HasFlag(l.flags, WRAPPER) {
      WrapperCheckClosed(s1, |pro|, l.stacksize);
    }
    var s2 := if HasFlag(l.flags, WRAPPER) then WrapperCheck(s1, |pro|, l.stacksize) else s1;
    StackOffsetAllKeeps(s2, l.stacksize);
  }

  /** Preprocess keeps every target inside the list: every branch the linked list
      holds a pointer for still denotes one of its records. */
  lemma PreprocessClosed(s: seq<Prog>, lim: StackLimits, cfunc: bool, fuel: nat, diags: seq<string>)
    requires TargetsClosed(s) && Preprocess(s, lim, cfunc, fuel, diags).Success?
    ensures TargetsClosed(Preprocess(s, lim, cfunc, fuel, diags).value.progs)
  {
    if s != [] && s[0].op == TEXT {
      var l, prepared, rewritten, split, relaxed, resolved := Stages(s, lim, cfunc, fuel, diags);
      PrepareClosed(s, lim, cfunc);
      StagesClosed(fuel, diags, l, prepared, rewritten, split, relaxed, resolved);
    }
  }

  lemma StagesClosed(fuel: nat, diags: seq<string>, l: Layout, prepared: seq<Prog>,
                     rewritten: (seq<Prog>, seq<string>), split: (seq<Prog>, seq<string>),
                     relaxed: (seq<Prog>, seq<string>), resolved: (seq<Prog>, seq<string>))
    requires TargetsClosed(prepared)
    requires PassFrom(prepared, 0, Lowering.RewriteStep(l.stacksize, l.saveRA), diags) == Success(rewritten)
    requires PassFrom(rewritten.0, 0, Lowering.SplitStep(), rewritten.1) == Success(split)
    requires RelaxRounds(split.0, fuel, split.1) == Success(relaxed)
    requires ResolveFrom(relaxed.0, 0, relaxed.1) == Success(resolved)
    ensures TargetsClosed(resolved.0)
  {
    PassClosed(prepared, 0, Lowering.RewriteStep(l.stacksize, l.saveRA), diags);
    PassClosed(rewritten.0, 0, Lowering.SplitStep(), rewritten.1);
    RelaxRoundsClosed(split.0, fuel, split.1);
    ResolveKeeps(relaxed.0, 0, relaxed.1);
  }

  /** When preprocess has run its stages, every record sits at the address setpcs gives
      it: the size of the records before it. */
  lemma PreprocessPlaces(s: seq<Prog>, lim: StackLimits, cfunc: bool, fuel: nat, diags: seq<string>)
    requires Preprocess(s, lim, cfunc, fuel, diags).Success? && Preprocess(s, lim, cfunc, fuel, diags).value.layout.Some?
    ensures PcsExact(Preprocess(s, lim, cfunc, fuel, diags).value.progs)
  {
    var l, prepared, rewritten, split, relaxed, resolved := Stages(s, lim, cfunc, fuel, diags);
    RelaxRoundsSettle(split.0, fuel, split.1);
    ResolvePlaces(relaxed.0, relaxed.1);
  }

  /** Resolution keeps a placed list placed. */
  lemma ResolvePlaces(s: seq<Prog>, diags: seq<string>)
    requires PcsExact(s) && ResolveFrom(s, 0, diags).Success?
    ensures PcsExact(ResolveFrom(s, 0, diags).value.0)
  {
    ResolveKeeps(s, 0, diags);
    var r := ResolveFrom(s, 0, diags).value.0;
    forall k | 0 <= k < |r|
      ensures r[k].pc == CodeSize(r[..k])
    {
      CodeSizeOps(r[..k], s[..k]);
    }
  }

  /** The diagnostics of preprocess extend those it was given, and when it has run its
      stages and reports nothing new, every record passes its validator. */
  lemma PreprocessQuiet(s: seq<Prog>, lim: StackLimits, cfunc: bool, fuel: nat, diags: seq<string>)
    requires Preprocess(s, lim, cfunc, fuel, diags).Success?
    ensures var r := Preprocess(s, lim, cfunc, fuel, diags).value;
      |r.diags| >= |diags| && r.diags[..|diags|] == diags
    ensures var r := Preprocess(s, lim, cfunc, fuel, diags).value;
      r.layout.Some? && r.diags == diags ==> forall k :: 0 <= k < |r.progs| ==> ValidateP(r.progs[k]) == []
  {
    if s != [] && s[0].op == TEXT {
      var l, prepared, rewritten, split, relaxed, resolved := Stages(s, lim, cfunc, fuel, diags);
      DiagsGrow(fuel, diags, l, prepared, rewritten, split, relaxed, resolved);
      ValidatedQuiet(diags, resolved.0, resolved.1);
    } else {
      assert (diags + [NoText])[..|diags|] == diags;
    }
  }

  /** The validation walk appended to diagnostics that extend `diags`. */
  lemma ValidatedQuiet(diags: seq<string>, s: seq<Prog>, d: seq<string>)
    requires |d| >= |diags| && d[..|diags|] == diags
    ensures var e := d + ValidateAll(s); |e| >= |diags| && e[..|diags|] == diags
    ensures d + ValidateAll(s) == diags ==> forall k :: 0 <= k < |s| ==> ValidateP(s[k]) == []
  {
    var e := d + ValidateAll(s);
    assert e[..|diags|] == e[..|d|][..|diags|];
    if e == diags {
      GatherEmpty(s, ValidateP);
    }
  }

  /** Each stage only adds diagnostics. */
  lemma DiagsGrow(fuel: nat, diags: seq<string>, l: Layout, prepared: seq<Prog>,
                  rewritten: (seq<Prog>, seq<string>), split: (seq<Prog>, seq<string>),
                  relaxed: (seq<Prog>, seq<string>), resolved: (seq<Prog>, seq<string>))
    requires PassFrom(prepared, 0, Lowering.RewriteStep(l.stacksize, l.saveRA), diags) == Success(rewritten)
    requires PassFrom(rewritten.0, 0, Lowering.SplitStep(), rewritten.1) == Success(split)
    requires RelaxRounds(split.0, fuel, split.1) == Success(relaxed)
    requires ResolveFrom(relaxed.0, 0, relaxed.1) == Success(resolved)
    ensures |resolved.1| >= |diags| && resolved.1[..|diags|] == diags
  {
    PassKeepsDiags(prepared, 0, Lowering.RewriteStep(l.stacksize, l.saveRA), diags);
    PassKeepsDiags(rewritten.0, 0, Lowering.SplitStep(), rewritten.1);
    RelaxRoundsKeepsDiags(split.0, fuel, split.1);
    ResolveKeepsDiags(relaxed.0, 0, relaxed.1);
    PrefixTrans(diags, rewritten.1, split.1);
    PrefixTrans(diags, split.1, relaxed.1);
    PrefixTrans(diags, relaxed.1, resolved.1);
  }

  lemma PrefixTrans(a: seq<string>, b: seq<string>, c: seq<string>)
    requires |b| >= |a| && b[..|a|] == a && |c| >= |b| && c[..|b|] == b
    ensures c[..|a|] == a
  {
    assert c[..|a|] == c[..|b|][..|a|];
  }
}
