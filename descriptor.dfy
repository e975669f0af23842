/**
 * One breakpoint record (`bp`): its condition, hit condition, log template
 * and hit counter, how it is built from a protocol descriptor, and the
 * decision taken when execution reaches its line.
 */
module Descriptor {
  import opened Wrappers
  import opened Numerals
  import opened Evaluation
  import opened Template

  /** A breakpoint at one line; an empty string means "not set". */
  datatype Bp = Bp(cond: string, hitcond: string, log: string, hit: nat)

  /** The protocol's breakpoint descriptor: three optional string members. */
  datatype BpInfo = BpInfo(condition: Option<string>, hitCondition: Option<string>, logMessage: Option<string>)

  function OrEmpty(s: Option<string>): string {
    if s.Some? then s.value else ""
  }

  /**
   * `bp::bp`: copies the condition and hit condition, stores a present log
   * message with a line break appended (so even an empty message makes a
   * logpoint), and starts the counter at `h`.
   */
  function MakeBp(info: BpInfo, h: nat): (b: Bp)
    ensures b.hit == h
    ensures b.cond == OrEmpty(info.condition) && b.hitcond == OrEmpty(info.hitCondition)
    ensures b.log == "" <==> info.logMessage.None?
    ensures info.logMessage.Some? ==> b.log[..|b.log| - 1] == info.logMessage.value && b.log[|b.log| - 1] == '\n'
  {
    Bp(OrEmpty(info.condition), OrEmpty(info.hitCondition),
       if info.logMessage.Some? then info.logMessage.value + "\n" else "",
       h)
  }

  /** The condition gate: no condition, or one that evaluates to `true`. */
  predicate ConditionHolds(eval: Evaluator, b: Bp) {
    b.cond == "" || IsOk(eval, b.cond)
  }

  /** The text evaluated for a hit condition once the counter has reached `n`. */
  function HitScript(n: nat, hitcond: string): string {
    Decimal(n) + " " + hitcond
  }

  /** The hit-count gate for counter value `n`. */
  predicate HitConditionHolds(eval: Evaluator, n: nat, hitcond: string) {
    hitcond == "" || IsOk(eval, HitScript(n, hitcond))
  }

  /** What one decision does: whether to pause, the new counter, the text sent to the output sink. */
  datatype Verdict = Verdict(pause: bool, hit: nat, emitted: seq<string>)

  /**
   * The part of `breakpoint::has` after the breakpoint is found: condition,
   * counter increment, hit condition on the incremented counter, logpoint.
   */
  function Decide(eval: Evaluator, b: Bp): (v: Verdict)
    ensures v.hit == (if ConditionHolds(eval, b) then b.hit + 1 else b.hit)
    ensures v.pause <==> ConditionHolds(eval, b) && HitConditionHolds(eval, b.hit + 1, b.hitcond) && b.log == ""
    ensures v.pause ==> b.log == ""
    ensures |v.emitted| <= 1
    ensures v.emitted != [] <==> ConditionHolds(eval, b) && HitConditionHolds(eval, b.hit + 1, b.hitcond) && b.log != ""
    ensures v.emitted != [] ==> v.emitted[0] == Render(Stringify(eval), b.log)
  {
    if b.cond != "" && !IsOk(eval, b.cond) then Verdict(false, b.hit, [])
    else
      var n := b.hit + 1;
      if b.hitcond != "" && !IsOk(eval, HitScript(n, b.hitcond)) then Verdict(false, n, [])
      else if b.log != "" then Verdict(false, n, [Render(Stringify(eval), b.log)])
      else Verdict(true, n, [])
  }

  /** Successive decisions on one breakpoint, one evaluator per call; each call sees the counter the previous one left. */
  function Replay(evals: seq<Evaluator>, b: Bp): (vs: seq<Verdict>)
    ensures |vs| == |evals|
    decreases |evals|
  {
    if evals == [] then []
    else
      var v := Decide(evals[0], b);
      [v] + Replay(evals[1..], b.(hit := v.hit))
  }

  /** Without a condition, the k-th call (from 0) decides on the breakpoint with its counter advanced by k. */
  lemma {:induction false} ReplayAt(evals: seq<Evaluator>, b: Bp, k: nat)
    requires b.cond == "" && k < |evals|
    ensures Replay(evals, b)[k] == Decide(evals[k], b.(hit := b.hit + k))
    decreases k
  {
    if k > 0 {
      var b' := b.(hit := b.hit + 1);
      assert Replay(evals, b)[k] == Replay(evals[1..], b')[k - 1];
      ReplayAt(evals[1..], b', k - 1);
      assert b'.(hit := b'.hit + (k - 1)) == b.(hit := b.hit + k);
    }
  }

  /**
   * Without a condition every call counts: the k-th call (from 0) sees the
   * counter at `hit + k + 1`, pauses exactly when the hit condition holds
   * for that count and the breakpoint is not a logpoint, and a logpoint
   * emits exactly when the hit condition holds.
   */
  lemma ReplayWithoutCondition(evals: seq<Evaluator>, b: Bp)
    requires b.cond == ""
    ensures forall k :: 0 <= k < |evals| ==>
      && Replay(evals, b)[k].hit == b.hit + k + 1
      && (Replay(evals, b)[k].pause <==> b.log == "" && HitConditionHolds(evals[k], b.hit + k + 1, b.hitcond))
      && (Replay(evals, b)[k].emitted != [] <==> b.log != "" && HitConditionHolds(evals[k], b.hit + k + 1, b.hitcond))
  {
    forall k | 0 <= k < |evals| {
      ReplayAt(evals, b, k);
    }
  }

  /** A failing condition leaves every call without effect: no pause, no count, no output. */
  lemma {:induction false} ReplayFailingCondition(evals: seq<Evaluator>, b: Bp)
    requires forall k :: 0 <= k < |evals| ==> !ConditionHolds(evals[k], b)
    ensures forall k :: 0 <= k < |evals| ==> Replay(evals, b)[k] == Verdict(false, b.hit, [])
    decreases |evals|
  {
    if evals != [] {
      ReplayFailingCondition(evals[1..], b);
      forall k | 1 <= k < |evals|
        ensures Replay(evals, b)[k] == Replay(evals[1..], b)[k - 1]
      {
      }
    }
  }
}
