/** The leader's review-and-retry rule, as an abstract loop over the stage
    order: delegate a stage, check its outputs, and when they are missing
    delete the unrelated files of its directory and delegate it again, at most
    five more times; then move on, or give up naming the stage. Whether the
    outputs pass review is an oracle: the leader is a language model, and its
    sub-agents' work is not modelled. Stages are named by their position in
    `Order`. */
module Coordinator {
  import opened StageRegistry

  /** How many times a stage may be delegated again after its first time. */
  const MaxRedelegations: nat := 5

  /** What the leader does: delegate the stage at position `step` (attempt 0
      is the first time), or clear that stage's directory of unrelated files
      before a retry. */
  datatype Action = Delegate(step: nat, attempt: nat) | Cleanup(step: nat)

  datatype Outcome = Completed | Failed(step: nat)

  /** The actions of a run and how it ended. */
  datatype Run = Run(outcome: Outcome, log: seq<Action>)

  /** `passes(i, a)`: whether the outputs of stage `Order[i]` pass review
      after its delegation number `a`. */
  type Oracle = (nat, nat) -> bool

  /** The number of delegations stage `i` gets when attempt `from` is next:
      up to and including the first that passes, and none after attempt
      `cap`. */
  function Delegations(passes: Oracle, i: nat, from: nat, cap: nat): (n: nat)
    requires from <= cap
    ensures from < n <= cap + 1
    decreases cap - from
  {
    if passes(i, from) || from == cap then from + 1
    else Delegations(passes, i, from + 1, cap)
  }

  /** The delegations of a stage stop at the first that passes review, or
      when the cap is reached, and not earlier. */
  lemma {:induction false} DelegationsStopAtFirstPass(passes: Oracle, cap: nat, i: nat, from: nat)
    requires from <= cap
    ensures var n := Delegations(passes, i, from, cap);
      && (forall a :: from <= a < n - 1 ==> !passes(i, a))
      && (passes(i, n - 1) || n - 1 == cap)
    decreases cap - from
  {
    if !passes(i, from) && from < cap {
      DelegationsStopAtFirstPass(passes, cap, i, from + 1);
    }
  }

  /** A stage that never passes gets all its delegations. */
  lemma {:induction false} NoPassMeansCap(passes: Oracle, cap: nat, i: nat, from: nat)
    requires from <= cap
    requires !passes(i, Delegations(passes, i, from, cap) - 1)
    ensures Delegations(passes, i, from, cap) == cap + 1
    decreases cap - from
  {
    if !passes(i, from) && from < cap {
      NoPassMeansCap(passes, cap, i, from + 1);
    }
  }

  /** Stage `i` passes review within its allowed delegations. */
  predicate StagePasses(passes: Oracle, cap: nat, i: nat) {
    passes(i, Delegations(passes, i, 0, cap) - 1)
  }

  /** Every stage from `from` up to before `to` passes review. */
  predicate AllPass(passes: Oracle, cap: nat, from: nat, to: nat) {
    forall j :: from <= j < to ==> StagePasses(passes, cap, j)
  }

  /** The actions spent on stage `i` when it is delegated `n` times. */
  function StageLog(i: nat, n: nat): seq<Action>
    requires n >= 1
  {
    if n == 1 then [Delegate(i, 0)] else StageLog(i, n - 1) + [Cleanup(i), Delegate(i, n - 1)]
  }

  /** The run from stage `i` on. */
  function Expected(passes: Oracle, cap: nat, i: nat): Run
    requires i <= |Order|
    decreases |Order| - i
  {
    if i == |Order| then Run(Completed, [])
    else
      var spent := StageLog(i, Delegations(passes, i, 0, cap));
      if !StagePasses(passes, cap, i) then Run(Failed(i), spent)
      else
        var rest := Expected(passes, cap, i + 1);
        Run(rest.outcome, spent + rest.log)
  }

  /** The leader's loop: every stage in order, each delegated again until its
      outputs pass or `MaxRedelegations` retries are used up. */
  method Coordinate(passes: Oracle) returns (outcome: Outcome, log: seq<Action>)
    ensures Run(outcome, log) == Expected(passes, MaxRedelegations, 0)
  {
    var cap := MaxRedelegations;
    log := [];
    var i := 0;
    while i < |Order|
      invariant 0 <= i <= |Order|
      invariant Expected(passes, cap, 0) == Run(Expected(passes, cap, i).outcome, log + Expected(passes, cap, i).log)
    {
      var attempt := 0;
      var spent := [Delegate(i, 0)];
      var ok := passes(i, 0);
      while !ok && attempt < cap
        invariant 0 <= attempt <= cap
        invariant spent == StageLog(i, attempt + 1)
        invariant ok == passes(i, attempt)
        invariant Delegations(passes, i, 0, cap) == Delegations(passes, i, attempt, cap)
      {
        attempt := attempt + 1;
        spent := spent + [Cleanup(i), Delegate(i, attempt)];
        ok := passes(i, attempt);
      }
      assert Delegations(passes, i, 0, cap) == attempt + 1;
      if !ok {
        return Failed(i), log + spent;
      }
      var rest := Expected(passes, cap, i + 1);
      assert log + (spent + rest.log) == (log + spent) + rest.log;
      log := log + spent;
      i := i + 1;
    }
    outcome := Completed;
    assert log + [] == log;
  }

  /** The actions for one stage all name it, begin with its first
      delegation and end with its last. */
  lemma {:induction false} StageLogShape(i: nat, n: nat)
    requires n >= 1
    ensures |StageLog(i, n)| == 2 * n - 1
    ensures StageLog(i, n)[0] == Delegate(i, 0)
    ensures StageLog(i, n)[|StageLog(i, n)| - 1] == Delegate(i, n - 1)
    ensures forall k :: 0 <= k < |StageLog(i, n)| ==> StageLog(i, n)[k].step == i
    decreases n
  {
    if n > 1 {
      StageLogShape(i, n - 1);
    }
  }

  /** Every delegation's attempt is within the cap, and every delegation
      but a stage's first comes right after a cleanup of that stage. */
  predicate RetriesFollowCleanup(log: seq<Action>, cap: nat) {
    forall k :: 0 <= k < |log| && log[k].Delegate? ==>
      && log[k].attempt <= cap
      && (log[k].attempt > 0 ==> k > 0 && AfterCleanup(log, k))
  }

  /** The action before `log[k]` cleans up the stage `log[k]` names. */
  predicate AfterCleanup(log: seq<Action>, k: nat)
    requires 0 < k < |log|
  {
    log[k - 1] == Cleanup(log[k].step)
  }

  /** Within one stage's actions, the attempts are below the number of
      delegations and every delegation but the first follows a cleanup. */
  lemma {:induction false} StageLogRetries(i: nat, n: nat, cap: nat)
    requires 1 <= n <= cap + 1
    ensures RetriesFollowCleanup(StageLog(i, n), cap)
    decreases n
  {
    if n > 1 {
      StageLogRetries(i, n - 1, cap);
      StageLogShape(i, n - 1);
      var l := StageLog(i, n);
      var prev := StageLog(i, n - 1);
      assert l == prev + [Cleanup(i), Delegate(i, n - 1)];
      forall k | 0 <= k < |l| && l[k].Delegate?
        ensures l[k].attempt <= cap
        ensures l[k].attempt > 0 ==> k > 0 && AfterCleanup(l, k)
      {
        if k < |prev| {
          assert l[k] == prev[k];
          if k > 0 {
            assert l[k - 1] == prev[k - 1];
          }
        } else {
          assert k == |prev| + 1;
        }
      }
    } else {
      assert StageLog(i, n) == [Delegate(i, 0)];
    }
  }

  /** A run from any stage on starts with a first delegation. */
  lemma RunStartsFresh(passes: Oracle, cap: nat, i: nat)
    requires i <= |Order|
    ensures var log := Expected(passes, cap, i).log;
      log != [] ==> log[0].Delegate? && log[0].attempt == 0
  {
    if i < |Order| {
      StageLogShape(i, Delegations(passes, i, 0, cap));
    }
  }

  /** No stage is delegated more than once plus `cap` times, and
      every delegation but a stage's first comes right after a cleanup of
      that stage's directory. */
  lemma {:induction false} RetriesAreBounded(passes: Oracle, cap: nat, i: nat)
    requires i <= |Order|
    ensures RetriesFollowCleanup(Expected(passes, cap, i).log, cap)
    decreases |Order| - i
  {
    if i < |Order| {
      var n := Delegations(passes, i, 0, cap);
      StageLogRetries(i, n, cap);
      if StagePasses(passes, cap, i) {
        RetriesAreBounded(passes, cap, i + 1);
        RunStartsFresh(passes, cap, i + 1);
        RetriesAppend(StageLog(i, n), Expected(passes, cap, i + 1).log, cap);
      }
    }
  }

  /** Two logs that each keep the retry rule, the second starting afresh,
      keep it together. */
  lemma RetriesAppend(a: seq<Action>, b: seq<Action>, cap: nat)
    requires RetriesFollowCleanup(a, cap) && RetriesFollowCleanup(b, cap)
    requires b != [] ==> b[0].Delegate? && b[0].attempt == 0
    ensures RetriesFollowCleanup(a + b, cap)
  {
    var l := a + b;
    forall k | 0 <= k < |l| && l[k].Delegate?
      ensures l[k].attempt <= cap
      ensures l[k].attempt > 0 ==> k > 0 && AfterCleanup(l, k)
    {
      if k >= |a| {
        var m := k - |a|;
        assert l[k] == b[m];
        if m > 0 {
          assert l[k - 1] == b[m - 1];
        }
      } else {
        assert l[k] == a[k];
        if k > 0 {
          assert l[k - 1] == a[k - 1];
        }
      }
    }
  }

  /** Every action names a stage from `lo` on, and the stages never go
      back. */
  predicate InOrderFrom(log: seq<Action>, lo: nat) {
    && (forall k :: 0 <= k < |log| ==> lo <= log[k].step < |Order|)
    && (forall j, k :: 0 <= j < k < |log| ==> log[j].step <= log[k].step)
  }

  /** The actions of stage `lo` followed by a log in order from `lo + 1` are
      in order from `lo`. */
  lemma InOrderAppend(a: seq<Action>, b: seq<Action>, lo: nat)
    requires lo < |Order|
    requires forall k :: 0 <= k < |a| ==> a[k].step == lo
    requires InOrderFrom(b, lo + 1)
    ensures InOrderFrom(a + b, lo)
  {
    var l := a + b;
    forall k | 0 <= k < |l| ensures lo <= l[k].step < |Order| {
      if k >= |a| {
        assert l[k] == b[k - |a|];
      } else {
        assert l[k] == a[k];
      }
    }
    forall j, k | 0 <= j < k < |l| ensures l[j].step <= l[k].step {
      if k >= |a| {
        assert l[k] == b[k - |a|];
        if j >= |a| {
          assert l[j] == b[j - |a|];
        } else {
          assert l[j] == a[j];
        }
      } else {
        assert l[k] == a[k];
        assert l[j] == a[j];
      }
    }
  }

  /** The run goes through the stages in order: every action names a stage
      at or after `i`, and the stages of its actions never go back. */
  lemma {:induction false} StagesRunInOrder(passes: Oracle, cap: nat, i: nat)
    requires i <= |Order|
    ensures InOrderFrom(Expected(passes, cap, i).log, i)
    decreases |Order| - i
  {
    if i < |Order| {
      var n := Delegations(passes, i, 0, cap);
      StageLogShape(i, n);
      if StagePasses(passes, cap, i) {
        StagesRunInOrder(passes, cap, i + 1);
        InOrderAppend(StageLog(i, n), Expected(passes, cap, i + 1).log, i);
      }
    }
  }

  /** The run completes exactly when every stage passes review within its
      delegations. */
  lemma {:induction false} CompletesIffAllPass(passes: Oracle, cap: nat, i: nat)
    requires i <= |Order|
    ensures Expected(passes, cap, i).outcome == Completed <==> AllPass(passes, cap, i, |Order|)
    decreases |Order| - i
  {
    if i < |Order| {
      AllPassStep(passes, cap, i, |Order|);
      if StagePasses(passes, cap, i) {
        CompletesIffAllPass(passes, cap, i + 1);
      }
    }
  }

  /** Stages `i` up to before `to` pass when stage `i` does and those after
      it do. */
  lemma AllPassStep(passes: Oracle, cap: nat, i: nat, to: nat)
    requires i < to
    ensures AllPass(passes, cap, i, to) <==> StagePasses(passes, cap, i) && AllPass(passes, cap, i + 1, to)
  {
  }

  /** A failed run names the first stage that does not pass review, after
      all of that stage's delegations were spent. */
  lemma {:induction false} FailureNamesFirstFailing(passes: Oracle, cap: nat, i: nat)
    requires i <= |Order|
    ensures var r := Expected(passes, cap, i);
      r.outcome.Failed? ==>
        && i <= r.outcome.step < |Order|
        && !StagePasses(passes, cap, r.outcome.step)
        && Delegations(passes, r.outcome.step, 0, cap) == cap + 1
        && AllPass(passes, cap, i, r.outcome.step)
    decreases |Order| - i
  {
    if i < |Order| {
      if StagePasses(passes, cap, i) {
        FailureNamesFirstFailing(passes, cap, i + 1);
      } else {
        NoPassMeansCap(passes, cap, i, 0);
      }
    }
  }

  /** No stage after the one a run fails on is ever delegated: its last
      action is the failing stage's last delegation. */
  lemma {:induction false} FailureStopsRun(passes: Oracle, cap: nat, i: nat)
    requires i <= |Order|
    ensures var r := Expected(passes, cap, i);
      r.outcome.Failed? ==>
        && r.log != []
        && r.log[|r.log| - 1] == Delegate(r.outcome.step, cap)
        && forall k :: 0 <= k < |r.log| ==> r.log[k].step <= r.outcome.step
    decreases |Order| - i
  {
    if i < |Order| {
      var n := Delegations(passes, i, 0, cap);
      var spent := StageLog(i, n);
      var r := Expected(passes, cap, i);
      StageLogShape(i, n);
      if StagePasses(passes, cap, i) {
        FailureStopsRun(passes, cap, i + 1);
        var rest := Expected(passes, cap, i + 1);
        if rest.outcome.Failed? {
          assert r.log == spent + rest.log;
          assert r.log[|r.log| - 1] == rest.log[|rest.log| - 1];
        }
      } else {
        NoPassMeansCap(passes, cap, i, 0);
      }
      if r.outcome.Failed? {
        StagesRunInOrder(passes, cap, i);
        forall k | 0 <= k < |r.log| ensures r.log[k].step <= r.outcome.step {
          if k < |r.log| - 1 {
            assert r.log[k].step <= r.log[|r.log| - 1].step;
          }
        }
      }
    }
  }

  /** Every stage before the one each action of `log` names, from stage `i`
      on, passed review. */
  predicate EarlierPassed(passes: Oracle, cap: nat, log: seq<Action>, i: nat) {
    forall k :: 0 <= k < |log| ==> AllPass(passes, cap, i, log[k].step)
  }

  /** A stage is delegated only after every earlier stage passed review. */
  lemma {:induction false} EarlierStagesPassed(passes: Oracle, cap: nat, i: nat)
    requires i <= |Order|
    ensures EarlierPassed(passes, cap, Expected(passes, cap, i).log, i)
    decreases |Order| - i
  {
    if i < |Order| {
      var n := Delegations(passes, i, 0, cap);
      StageLogShape(i, n);
      if StagePasses(passes, cap, i) {
        EarlierStagesPassed(passes, cap, i + 1);
        PassedAppend(passes, cap, StageLog(i, n), Expected(passes, cap, i + 1).log, i);
      }
    }
  }

  /** The actions of a stage that passed, followed by a log whose stages all
      had every stage from the next one on pass, have every stage from this
      one on pass. */
  lemma PassedAppend(passes: Oracle, cap: nat, a: seq<Action>, b: seq<Action>, i: nat)
    requires StagePasses(passes, cap, i)
    requires forall k :: 0 <= k < |a| ==> a[k].step == i
    requires EarlierPassed(passes, cap, b, i + 1)
    ensures EarlierPassed(passes, cap, a + b, i)
  {
    var l := a + b;
    forall k | 0 <= k < |l| ensures AllPass(passes, cap, i, l[k].step) {
      if k >= |a| {
        assert l[k] == b[k - |a|];
        assert AllPass(passes, cap, i + 1, l[k].step);
      } else {
        assert l[k] == a[k];
      }
    }
  }

  /** So every file a delegated stage reads, other than the raw document,
      was written by a stage whose outputs had passed review. */
  lemma InputsWrittenBeforeUse(passes: Oracle, cap: nat, k: nat, x: Input)
    requires var log := Expected(passes, cap, 0).log;
      k < |log| && log[k].step < |Order| &&
      x in RowOf(Order[log[k].step]).inputs && x.Reads? && x.file != RawDocument
    ensures StagePasses(passes, cap, Position(FirstProducer(x.file)))
  {
    var log := Expected(passes, cap, 0).log;
    EarlierStagesPassed(passes, cap, 0);
    assert AllPass(passes, cap, 0, log[k].step);
    InputsComeEarlier(Order[log[k].step], x);
    PositionInverts(log[k].step);
  }

  /** The number of delegations in a sequence of actions. */
  function DelegationCount(log: seq<Action>): nat {
    if log == [] then 0
    else (if log[|log| - 1].Delegate? then 1 else 0) + DelegationCount(log[..|log| - 1])
  }

  lemma {:induction false} DelegationCountAppend(a: seq<Action>, b: seq<Action>)
    ensures DelegationCount(a + b) == DelegationCount(a) + DelegationCount(b)
    decreases |b|
  {
    if b != [] {
      DelegationCountAppend(a, b[..|b| - 1]);
      assert (a + b)[..|a + b| - 1] == a + b[..|b| - 1];
      assert (a + b)[|a + b| - 1] == b[|b| - 1];
    } else {
      assert a + b == a;
    }
  }

  lemma {:induction false} StageDelegationCount(i: nat, n: nat)
    requires n >= 1
    ensures DelegationCount(StageLog(i, n)) == n
    decreases n
  {
    if n > 1 {
      StageDelegationCount(i, n - 1);
      DelegationCountAppend(StageLog(i, n - 1), [Cleanup(i), Delegate(i, n - 1)]);
      assert [Cleanup(i), Delegate(i, n - 1)][..1] == [Cleanup(i)];
    }
  }

  /** A run delegates at most six times per stage: 54 delegations in all. */
  lemma {:induction false} RunIsBounded(passes: Oracle, cap: nat, i: nat)
    requires i <= |Order|
    ensures DelegationCount(Expected(passes, cap, i).log) <= (cap + 1) * (|Order| - i)
    decreases |Order| - i
  {
    if i < |Order| {
      var n := Delegations(passes, i, 0, cap);
      StageDelegationCount(i, n);
      if StagePasses(passes, cap, i) {
        RunIsBounded(passes, cap, i + 1);
        assert (cap + 1) * (|Order| - i) == (cap + 1) + (cap + 1) * (|Order| - (i + 1));
        DelegationCountAppend(StageLog(i, n), Expected(passes, cap, i + 1).log);
      }
    }
  }
}
