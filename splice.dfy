/** Edits of a function's instruction list. In the source the list is linked and a
    branch target is a pointer to a record, so linking new records in (`obj.Appendp`)
    leaves every target denoting the record it denoted before. With targets modelled
    as indices, an insertion moves every target beyond the insertion point by the
    number of records inserted; these functions do that bookkeeping once. */
module Splice {
  import opened Wrappers
  import opened Progs

  /** A target beyond position i moves d places on; other targets stay. */
  function ShiftTarget(t: Option<nat>, i: nat, d: nat): Option<nat> {
    if t.Some? && t.value > i then Some(t.value + d) else t
  }

  function ShiftProg(p: Prog, i: nat, d: nat): Prog {
    p.(pcond := ShiftTarget(p.pcond, i, d))
  }

  /** Every record of s with its target shifted; nothing else changes. */
  function ShiftAll(s: seq<Prog>, i: nat, d: nat): (r: seq<Prog>)
    ensures |r| == |s|
    ensures forall k :: 0 <= k < |s| ==> r[k] == ShiftProg(s[k], i, d)
  {
    seq(|s|, k requires 0 <= k < |s| => ShiftProg(s[k], i, d))
  }

  /** The record at i is rewritten into `block`; block[0] keeps the place of s[i], so a
      target that denoted s[i] now denotes block[0], and the rest of block is linked in
      after it. The targets inside block are written in the indices of s, as in the
      source, where they are pointers to records that already exist. */
  function ReplaceAt(s: seq<Prog>, i: nat, block: seq<Prog>): (r: seq<Prog>)
    requires i < |s| && |block| >= 1
    ensures |r| == |s| + |block| - 1
    ensures forall k {:trigger r[k]} :: 0 <= k < i ==> r[k] == ShiftProg(s[k], i, |block| - 1)
    ensures forall k {:trigger r[k]} :: i <= k < i + |block| ==> r[k] == ShiftProg(block[k - i], i, |block| - 1)
    ensures forall k {:trigger r[k]} :: i + |block| <= k < |r| ==> r[k] == ShiftProg(s[k - |block| + 1], i, |block| - 1)
  {
    ShiftAll(s[..i] + block + s[i + 1..], i, |block| - 1)
  }

  /** Records linked in after position i whose own targets are given in the indices
      of the result (they may point at one another, which a target into s cannot). */
  function InsertAfter(s: seq<Prog>, i: nat, block: seq<Prog>): (r: seq<Prog>)
    requires i < |s|
    ensures |r| == |s| + |block|
    ensures forall k {:trigger r[k]} :: 0 <= k <= i ==> r[k] == ShiftProg(s[k], i, |block|)
    ensures forall k {:trigger r[k]} :: i < k <= i + |block| ==> r[k] == block[k - i - 1]
    ensures forall k {:trigger r[k]} :: i + |block| < k < |r| ==> r[k] == ShiftProg(s[k - |block|], i, |block|)
  {
    ShiftAll(s[..i + 1], i, |block|) + block + ShiftAll(s[i + 1..], i, |block|)
  }

  /** Every target of a record of s lies below n. */
  predicate TargetsBelow(s: seq<Prog>, n: nat) {
    forall k :: 0 <= k < |s| && s[k].pcond.Some? ==> s[k].pcond.value < n
  }

  /** Replacing a record keeps the list closed when the block's targets are records
      of the list. */
  lemma ReplaceAtClosed(s: seq<Prog>, i: nat, block: seq<Prog>)
    requires i < |s| && |block| >= 1
    requires TargetsClosed(s) && TargetsBelow(block, |s|)
    ensures TargetsClosed(ReplaceAt(s, i, block))
  {
    var r := ReplaceAt(s, i, block);
    var d := |block| - 1;
    forall k | 0 <= k < |r| && r[k].pcond.Some?
      ensures r[k].pcond.value < |r|
    {
      if k < i {
        assert r[k] == ShiftProg(s[k], i, d);
      } else if k < i + |block| {
        assert r[i + (k - i)] == ShiftProg(block[k - i], i, d);
      } else {
        assert r[(k - d) + d] == ShiftProg(s[k - d], i, d);
      }
    }
  }

  /** Inserting a block whose targets are records of the result keeps the list closed. */
  lemma InsertAfterClosed(s: seq<Prog>, i: nat, block: seq<Prog>)
    requires i < |s|
    requires TargetsClosed(s) && TargetsBelow(block, |s| + |block|)
    ensures TargetsClosed(InsertAfter(s, i, block))
  {
    var r := InsertAfter(s, i, block);
    var d := |block|;
    forall k | 0 <= k < |r| && r[k].pcond.Some?
      ensures r[k].pcond.value < |r|
    {
      if k <= i {
        assert r[k] == ShiftProg(s[k], i, d);
      } else if k < i + 1 + |block| {
        assert r[i + 1 + (k - i - 1)] == block[k - i - 1];
      } else {
        assert r[(k - d) + d] == ShiftProg(s[k - d], i, d);
      }
    }
  }

  /** Shifting changes targets only: the operations of the records stay. */
  lemma ShiftKeepsOps(s: seq<Prog>, i: nat, d: nat)
    ensures forall k :: 0 <= k < |s| ==> ShiftAll(s, i, d)[k].op == s[k].op
  {
  }

  // ------------------------------------------------------------ rewriting passes

  /** A record rewritten into a block, with the diagnostics reported on the way. */
  datatype Lowered = Lowered(block: seq<Prog>, diags: seq<string>)

  /** A rewrite of one record that yields at least one record whenever it succeeds. */
  ghost predicate Yields(step: Prog -> Result<Lowered>) {
    forall p :: step(p).Success? ==> |step(p).value.block| >= 1
  }

  /** A rewrite whose new records point nowhere or where the rewritten record pointed. */
  ghost predicate KeepsTargets(step: Prog -> Result<Lowered>) {
    forall p :: step(p).Success? ==>
      forall j :: 0 <= j < |step(p).value.block| ==>
        step(p).value.block[j].pcond.None? || step(p).value.block[j].pcond == p.pcond
  }

  /** A pass over the list from position i: each record is rewritten by `step`, its
      block takes its place, and the walk continues after the block. A failing step
      (a panic of the source) stops the pass. */
  function PassFrom(s: seq<Prog>, i: nat, step: Prog -> Result<Lowered>, acc: seq<string>): Result<(seq<Prog>, seq<string>)>
    requires Yields(step)
    decreases |s| - i
  {
    if i >= |s| then Success((s, acc))
    else match step(s[i])
      case Failure(e) => Failure(e)
      case Success(l) => PassFrom(ReplaceAt(s, i, l.block), i + |l.block|, step, acc + l.diags)
  }

  /** One step of a pass: a record rewritten, and the pass going on after its block. */
  lemma PassStep(s: seq<Prog>, i: nat, step: Prog -> Result<Lowered>, acc: seq<string>)
    requires Yields(step) && i < |s| && step(s[i]).Success?
    ensures PassFrom(s, i, step, acc) ==
      PassFrom(ReplaceAt(s, i, step(s[i]).value.block), i + |step(s[i]).value.block|, step, acc + step(s[i]).value.diags)
  {
  }

  /** A pass whose step never fails does not fail. */
  lemma {:induction false} PassTotal(s: seq<Prog>, i: nat, step: Prog -> Result<Lowered>, acc: seq<string>)
    requires Yields(step) && forall p :: step(p).Success?
    ensures PassFrom(s, i, step, acc).Success?
    decreases |s| - i
  {
    if i < |s| {
      var l := step(s[i]).value;
      var t := ReplaceAt(s, i, l.block);
      PassStep(s, i, step, acc);
      PassTotal(t, i + |l.block|, step, acc + l.diags);
    }
  }

  /** The diagnostics of a pass extend those it started with. */
  lemma {:induction false} PassKeepsDiags(s: seq<Prog>, i: nat, step: Prog -> Result<Lowered>, acc: seq<string>)
    requires Yields(step) && PassFrom(s, i, step, acc).Success?
    ensures |PassFrom(s, i, step, acc).value.1| >= |acc|
    ensures PassFrom(s, i, step, acc).value.1[..|acc|] == acc
    decreases |s| - i
  {
    if i < |s| {
      var l := step(s[i]).value;
      PassStep(s, i, step, acc);
      PassKeepsDiags(ReplaceAt(s, i, l.block), i + |l.block|, step, acc + l.diags);
      assert (acc + l.diags)[..|acc|] == acc;
    }
  }

  /** A pass whose steps keep targets keeps the list closed and never shortens it. */
  lemma {:induction false} PassClosed(s: seq<Prog>, i: nat, step: Prog -> Result<Lowered>, acc: seq<string>)
    requires Yields(step) && KeepsTargets(step) && TargetsClosed(s)
    requires PassFrom(s, i, step, acc).Success?
    ensures TargetsClosed(PassFrom(s, i, step, acc).value.0)
    ensures |PassFrom(s, i, step, acc).value.0| >= |s|
    decreases |s| - i
  {
    if i < |s| {
      var l := step(s[i]).value;
      var s' := ReplaceAt(s, i, l.block);
      PassStep(s, i, step, acc);
      BlockTargetsBelow(step, s[i], |s|);
      ReplaceAtClosed(s, i, l.block);
      PassClosed(s', i + |l.block|, step, acc + l.diags);
    }
  }

  lemma BlockTargetsBelow(step: Prog -> Result<Lowered>, p: Prog, n: nat)
    requires KeepsTargets(step) && step(p).Success?
    requires p.pcond.Some? ==> p.pcond.value < n
    ensures TargetsBelow(step(p).value.block, n)
  {
  }

  /** A property of records that shifting their target does not change. */
  ghost predicate TargetIndependent(ok: Prog -> bool) {
    forall p: Prog, i: nat, d: nat :: ok(ShiftProg(p, i, d)) == ok(p)
  }

  /** A step that establishes `ok` on every record it yields whenever it reports
      nothing: a pass that reports nothing establishes `ok` on the whole list. */
  lemma {:induction false} PassEstablishes(s: seq<Prog>, i: nat, step: Prog -> Result<Lowered>, acc: seq<string>, ok: Prog -> bool)
    requires Yields(step) && TargetIndependent(ok)
    requires forall p :: step(p).Success? && step(p).value.diags == [] ==>
      forall j :: 0 <= j < |step(p).value.block| ==> ok(step(p).value.block[j])
    requires i <= |s| && forall k :: 0 <= k < i ==> ok(s[k])
    requires PassFrom(s, i, step, acc).Success? && PassFrom(s, i, step, acc).value.1 == []
    ensures var r := PassFrom(s, i, step, acc).value.0;
      forall k :: 0 <= k < |r| ==> ok(r[k])
    decreases |s| - i
  {
    if i < |s| {
      var s', j, acc' := PassEstablishesStep(s, i, step, acc, ok);
      PassEstablishes(s', j, step, acc', ok);
    }
  }

  /** One step of PassEstablishes: the record at i reports nothing, so `ok` holds
      on its block, and the pass goes on from after the block. */
  lemma PassEstablishesStep(s: seq<Prog>, i: nat, step: Prog -> Result<Lowered>, acc: seq<string>, ok: Prog -> bool)
    returns (s': seq<Prog>, j: nat, acc': seq<string>)
    requires Yields(step) && TargetIndependent(ok)
    requires forall p :: step(p).Success? && step(p).value.diags == [] ==>
      forall j :: 0 <= j < |step(p).value.block| ==> ok(step(p).value.block[j])
    requires i < |s| && forall k :: 0 <= k < i ==> ok(s[k])
    requires PassFrom(s, i, step, acc).Success? && PassFrom(s, i, step, acc).value.1 == []
    ensures |s'| - j < |s| - i && j <= |s'|
    ensures forall k :: 0 <= k < j ==> ok(s'[k])
    ensures PassFrom(s', j, step, acc') == PassFrom(s, i, step, acc)
  {
    var l := step(s[i]).value;
    s', j, acc' := ReplaceAt(s, i, l.block), i + |l.block|, acc + l.diags;
    PassStep(s, i, step, acc);
    PassKeepsDiags(s', j, step, acc');
    assert l.diags == [];
    ReplaceAtEstablishes(s, i, l.block, ok);
  }

  /** Replacing a record by a block on which `ok` holds extends a prefix on which it
      holds over the block. */
  lemma ReplaceAtEstablishes(s: seq<Prog>, i: nat, block: seq<Prog>, ok: Prog -> bool)
    requires i < |s| && |block| >= 1 && TargetIndependent(ok)
    requires forall k :: 0 <= k < i ==> ok(s[k])
    requires forall j :: 0 <= j < |block| ==> ok(block[j])
    ensures var r := ReplaceAt(s, i, block);
      forall k :: 0 <= k < i + |block| ==> ok(r[k])
  {
    var r := ReplaceAt(s, i, block);
    var d := |block| - 1;
    forall k | 0 <= k < i + |block|
      ensures ok(r[k])
    {
      if k < i {
        assert r[k] == ShiftProg(s[k], i, d);
        assert ok(s[k]);
      } else {
        assert r[k] == ShiftProg(block[k - i], i, d);
        assert ok(block[k - i]);
      }
    }
  }
}
