/**
 * call_once: any number of threads call it on one flag, in any interleaving of their atomic
 * instructions, with a callable that takes several steps on shared data.
 */
module CallOnce {

  /** The callable, as the steps it performs on the data it initialises. */
  type Callable<!S> = seq<S -> S>

  /**
   * Where a thread is: before the first load, before the compare-exchange, having won it, inside the
   * callable, before the final store, in the waiting loop, or returned.
   */
  datatype Pc = Start | Cas | Won | Running(k: nat) | Finished | Waiting | Returned

  /** started and finished count the callable's runs. */
  datatype Machine<S> = Machine(state: int, data: S, threads: seq<Pc>, started: nat, finished: nat)

  /** Compare-exchange: the new value and whether the expected one was seen. */
  function CompareExchange(value: int, expected: int, desired: int): (int, bool) {
    if value == expected then (desired, true) else (value, false)
  }

  predicate Enabled<S>(s: Machine<S>, t: nat) {
    t < |s.threads| && !s.threads[t].Returned?
  }

  /** Thread t's next instruction. */
  function Step<S>(f: Callable<S>, s: Machine<S>, t: nat): Machine<S>
    requires Enabled(s, t)
  {
    match s.threads[t]
    case Start =>
      Goto(s, t, if s.state == 2 then Returned else Cas)
    case Cas =>
      var (state, won) := CompareExchange(s.state, 0, 1);
      Goto(s.(state := state), t, if won then Won else Waiting)
    case Won =>
      Goto(s.(started := s.started + 1), t, Running(0))
    case Running(k) =>
      if k < |f| then Goto(s.(data := f[k](s.data)), t, Running(k + 1))
      else Goto(s.(finished := s.finished + 1), t, Finished)
    case Finished =>
      Goto(s.(state := 2), t, Returned)
    case Waiting =>
      Goto(s, t, if s.state == 2 then Returned else Waiting)
    case Returned => s
  }

  function Goto<S>(s: Machine<S>, t: nat, pc: Pc): Machine<S>
    requires t < |s.threads|
  {
    s.(threads := s.threads[t := pc])
  }

  ghost predicate ValidRun<S>(f: Callable<S>, s: Machine<S>, run: seq<nat>)
    decreases |run|
  {
    run == [] || (Enabled(s, run[0]) && ValidRun(f, Step(f, s, run[0]), run[1..]))
  }

  function Run<S>(f: Callable<S>, s: Machine<S>, run: seq<nat>): Machine<S>
    requires ValidRun(f, s, run)
    decreases |run|
  {
    if run == [] then s else Run(f, Step(f, s, run[0]), run[1..])
  }

  /** The data after the callable's first k steps. */
  function After<S>(f: Callable<S>, k: nat, data: S): S
    requires k <= |f|
  {
    if k == 0 then data else f[k - 1](After(f, k - 1, data))
  }

  // ----- the invariant

  predicate Initial<S>(s: Machine<S>) {
    s.state == 0 && s.started == 0 && s.finished == 0 && forall t | 0 <= t < |s.threads| :: s.threads[t] == Start
  }

  /** The thread has won the compare-exchange and not yet stored 2. */
  predicate Owns(pc: Pc) {
    pc.Won? || pc.Running? || pc.Finished?
  }

  /** How far an owner has come. */
  ghost predicate Progress<S>(f: Callable<S>, d: S, s: Machine<S>, pc: Pc) {
    match pc
    case Won => s.started == 0 && s.finished == 0 && s.data == d
    case Running(k) => s.started == 1 && s.finished == 0 && k <= |f| && s.data == After(f, k, d)
    case Finished => s.started == 1 && s.finished == 1 && s.data == After(f, |f|, d)
    case _ => false
  }

  ghost predicate Untouched<S>(d: S, s: Machine<S>) {
    && s.started == 0 && s.finished == 0 && s.data == d
    && forall t | 0 <= t < |s.threads| :: s.threads[t].Start? || s.threads[t].Cas?
  }

  ghost predicate InProgress<S>(f: Callable<S>, d: S, s: Machine<S>) {
    exists o: nat :: OwnedBy(f, d, s, o)
  }

  ghost predicate OwnedBy<S>(f: Callable<S>, d: S, s: Machine<S>, o: nat) {
    && o < |s.threads| && Progress(f, d, s, s.threads[o])
    && forall t | 0 <= t < |s.threads| && t != o :: !Owns(s.threads[t]) && !s.threads[t].Returned?
  }

  ghost predicate Complete<S>(f: Callable<S>, d: S, s: Machine<S>) {
    && s.started == 1 && s.finished == 1 && s.data == After(f, |f|, d)
    && forall t | 0 <= t < |s.threads| :: !Owns(s.threads[t])
  }

  ghost predicate Inv<S>(f: Callable<S>, d: S, s: Machine<S>) {
    || (s.state == 0 && Untouched(d, s))
    || (s.state == 1 && InProgress(f, d, s))
    || (s.state == 2 && Complete(f, d, s))
  }

  lemma FirstStepsKeep<S>(f: Callable<S>, d: S, s: Machine<S>, t: nat)
    requires s.state == 0 && Untouched(d, s) && Enabled(s, t)
    ensures var s' := Step(f, s, t);
            if s'.state == 0 then Untouched(d, s') else s'.state == 1 && InProgress(f, d, s')
  {
    if s.threads[t].Cas? {
      assert OwnedBy(f, d, Step(f, s, t), t);
    }
  }

  lemma OwnedStepKeeps<S>(f: Callable<S>, d: S, s: Machine<S>, t: nat, o: nat)
    requires s.state == 1 && OwnedBy(f, d, s, o) && Enabled(s, t)
    ensures var s' := Step(f, s, t);
            if s'.state == 1 then OwnedBy(f, d, s', o) else s'.state == 2 && Complete(f, d, s')
  {
  }

  lemma CompleteKeeps<S>(f: Callable<S>, d: S, s: Machine<S>, t: nat)
    requires s.state == 2 && Complete(f, d, s) && Enabled(s, t)
    ensures Step(f, s, t).state == 2 && Complete(f, d, Step(f, s, t))
  {
  }

  lemma StepKeeps<S>(f: Callable<S>, d: S, s: Machine<S>, t: nat)
    requires Inv(f, d, s) && Enabled(s, t)
    ensures Inv(f, d, Step(f, s, t))
    ensures s.state <= Step(f, s, t).state <= s.state + 1
  {
    hide Untouched, Complete;
    if s.state == 0 {
      FirstStepsKeep(f, d, s, t);
    } else if s.state == 1 {
      var o: nat :| OwnedBy(f, d, s, o);
      OwnedStepKeeps(f, d, s, t, o);
    } else {
      CompleteKeeps(f, d, s, t);
    }
  }

  lemma {:induction false} RunKeeps<S>(f: Callable<S>, d: S, s: Machine<S>, run: seq<nat>)
    requires Inv(f, d, s) && ValidRun(f, s, run)
    ensures Inv(f, d, Run(f, s, run)) && s.state <= Run(f, s, run).state
    decreases |run|
  {
    if run != [] {
      StepKeeps(f, d, s, run[0]);
      RunKeeps(f, d, Step(f, s, run[0]), run[1..]);
    }
  }

  // ----- the theorems

  /**
   * In every reachable state the callable has started at most once; and as soon as any thread has
   * returned, it has run exactly once, to its end, and the data is what it leaves.
   */
  lemma RunsExactlyOnce<S>(f: Callable<S>, s: Machine<S>, run: seq<nat>)
    requires Initial(s) && ValidRun(f, s, run)
    ensures var s' := Run(f, s, run);
            && 0 <= s'.state <= 2
            && s'.finished <= s'.started <= 1
            && (s'.state == 0 ==> s'.data == s.data)
            && forall t | 0 <= t < |s'.threads| && s'.threads[t].Returned? ::
                 s'.state == 2 && s'.started == s'.finished == 1 && s'.data == After(f, |f|, s.data)
  {
    RunKeeps(f, s.data, s, run);
    var s' := Run(f, s, run);
    if s'.state == 1 {
      var o: nat :| OwnedBy(f, s.data, s', o);
      assert !s'.threads[o].Returned?;
    }
  }

  lemma {:induction false} RunAppend<S>(f: Callable<S>, s: Machine<S>, xs: seq<nat>, ys: seq<nat>)
    requires ValidRun(f, s, xs + ys)
    ensures ValidRun(f, s, xs) && ValidRun(f, Run(f, s, xs), ys)
    ensures Run(f, s, xs + ys) == Run(f, Run(f, s, xs), ys)
    decreases |xs|
  {
    if xs == [] {
      assert xs + ys == ys;
    } else {
      assert (xs + ys)[1..] == xs[1..] + ys;
      RunAppend(f, Step(f, s, xs[0]), xs[1..], ys);
    }
  }

  /** Along every run the state only grows, and once it is 2 neither it nor the data ever changes again. */
  lemma StateOnlyGrows<S>(f: Callable<S>, s: Machine<S>, xs: seq<nat>, ys: seq<nat>)
    requires Initial(s) && ValidRun(f, s, xs + ys)
    ensures ValidRun(f, s, xs) && Run(f, s, xs).state <= Run(f, s, xs + ys).state
    ensures Run(f, s, xs).state == 2 ==>
      Run(f, s, xs + ys).state == 2 && Run(f, s, xs + ys).data == Run(f, s, xs).data
  {
    RunAppend(f, s, xs, ys);
    RunKeeps(f, s.data, s, xs);
    RunKeeps(f, s.data, Run(f, s, xs), ys);
  }

  /** How many of its own steps a thread still needs once the state is 2. */
  function Rank(pc: Pc): nat {
    match pc
    case Returned => 0
    case Start => 1
    case Waiting => 1
    case _ => 2
  }

  function StepsOf(run: seq<nat>, t: nat): nat {
    if run == [] then 0 else (if run[0] == t then 1 else 0) + StepsOf(run[1..], t)
  }

  /** From any reachable state with value 2, every caller returns within two steps of its own, whatever the others do. */
  lemma CallersReturnSoon<S>(f: Callable<S>, s: Machine<S>, xs: seq<nat>, ys: seq<nat>, t: nat)
    requires Initial(s) && ValidRun(f, s, xs + ys) && t < |s.threads|
    ensures ValidRun(f, s, xs) && |Run(f, s, xs + ys).threads| == |s.threads|
    ensures Run(f, s, xs).state == 2 && StepsOf(ys, t) >= 2 ==> Run(f, s, xs + ys).threads[t].Returned?
  {
    RunAppend(f, s, xs, ys);
    RunKeeps(f, s.data, s, xs);
    ThreadsStay(f, s, xs);
    ThreadsStay(f, s, xs + ys);
    if Run(f, s, xs).state == 2 {
      CallersFinish(f, s.data, Run(f, s, xs), ys, t);
    }
  }

  lemma {:induction false} ThreadsStay<S>(f: Callable<S>, s: Machine<S>, run: seq<nat>)
    requires ValidRun(f, s, run)
    ensures |Run(f, s, run).threads| == |s.threads|
    decreases |run|
  {
    if run != [] {
      ThreadsStay(f, Step(f, s, run[0]), run[1..]);
    }
  }

  /** With the state at 2, each step of a caller brings it closer to its return. */
  lemma {:induction false} CallersFinish<S>(f: Callable<S>, d: S, s: Machine<S>, run: seq<nat>, t: nat)
    requires Inv(f, d, s) && s.state == 2 && ValidRun(f, s, run) && t < |s.threads|
    ensures |Run(f, s, run).threads| == |s.threads|
    ensures StepsOf(run, t) + Rank(Run(f, s, run).threads[t]) <= Rank(s.threads[t]) <= 2
    ensures StepsOf(run, t) == 2 ==> Run(f, s, run).threads[t].Returned?
    decreases |run|
  {
    if run != [] {
      StepKeeps(f, d, s, run[0]);
      CallersFinish(f, d, Step(f, s, run[0]), run[1..], t);
    }
  }

  /**
   * Nobody waits in vain: in every reachable state in which some thread waits, the owner's next step is
   * enabled and moves it on.
   */
  lemma OwnerCanMove<S>(f: Callable<S>, s: Machine<S>, run: seq<nat>, t: nat)
    requires Initial(s) && ValidRun(f, s, run) && t < |Run(f, s, run).threads|
    requires Run(f, s, run).threads[t].Waiting? && Run(f, s, run).state != 2
    ensures var s' := Run(f, s, run);
            exists o: nat ::
              && Enabled(s', o) && Owns(s'.threads[o])
              && OwnerRank(f, Step(f, s', o).threads[o]) < OwnerRank(f, s'.threads[o])
  {
    RunKeeps(f, s.data, s, run);
    OwnerProgresses(f, s.data, Run(f, s, run), t);
  }

  lemma OwnerProgresses<S>(f: Callable<S>, d: S, s: Machine<S>, t: nat)
    requires Inv(f, d, s) && t < |s.threads| && s.threads[t].Waiting? && s.state != 2
    ensures exists o: nat ::
      Enabled(s, o) && Owns(s.threads[o]) && OwnerRank(f, Step(f, s, o).threads[o]) < OwnerRank(f, s.threads[o])
  {
    var o: nat :| OwnedBy(f, d, s, o);
    assert Enabled(s, o) && Owns(s.threads[o]);
    assert OwnerRank(f, Step(f, s, o).threads[o]) < OwnerRank(f, s.threads[o]);
  }

  /** How many steps an owner needs until it has returned. */
  function OwnerRank<S>(f: Callable<S>, pc: Pc): nat {
    match pc
    case Won => |f| + 3
    case Running(k) => if k <= |f| then |f| - k + 2 else 0
    case Finished => 1
    case _ => 0
  }

  // ----- every call gets going and comes to its end

  /** A run of n steps of one thread. */
  function Alone(t: nat, n: nat): seq<nat> {
    seq(n, _ => t)
  }

  lemma AloneStep<S>(f: Callable<S>, s: Machine<S>, t: nat, n: nat)
    requires Enabled(s, t) && n > 0
    ensures ValidRun(f, s, Alone(t, n)) <==> ValidRun(f, Step(f, s, t), Alone(t, n - 1))
    ensures ValidRun(f, s, Alone(t, n)) ==> Run(f, s, Alone(t, n)) == Run(f, Step(f, s, t), Alone(t, n - 1))
  {
    assert Alone(t, n)[1..] == Alone(t, n - 1) && Alone(t, n)[0] == t;
  }

  /** The owner's last steps: the rest of the callable, in order, and the store. */
  lemma {:induction false} OwnerAlone<S>(f: Callable<S>, s: Machine<S>, t: nat, k: nat, d: S)
    requires t < |s.threads| && s.threads[t] == Running(k) && k <= |f| && s.data == After(f, k, d)
    ensures ValidRun(f, s, Alone(t, |f| - k + 2))
    ensures var s' := Run(f, s, Alone(t, |f| - k + 2));
            && s'.threads == s.threads[t := Returned] && s'.state == 2 && s'.data == After(f, |f|, d)
            && s'.started == s.started && s'.finished == s.finished + 1
    decreases |f| - k
  {
    AloneStep(f, s, t, |f| - k + 2);
    var s1 := Step(f, s, t);
    if k < |f| {
      OwnerAlone(f, s1, t, k + 1, d);
      assert s1.threads[t := Returned] == s.threads[t := Returned];
    } else {
      var s2 := Step(f, s1, t);
      AloneStep(f, s1, t, 1);
      assert Alone(t, 0) == [];
      assert s2.threads == s.threads[t := Returned];
    }
  }

  /** On a fresh flag the load leads to the compare-exchange, that to the call, and that into the callable. */
  lemma WinsTheFlag<S>(f: Callable<S>, s: Machine<S>, t: nat)
    requires Initial(s) && t < |s.threads|
    ensures Enabled(s, t) && Enabled(Step(f, s, t), t) && Enabled(Step(f, Step(f, s, t), t), t)
    ensures var s3 := Step(f, Step(f, Step(f, s, t), t), t);
            && |s3.threads| == |s.threads| && s3.threads[t] == Running(0)
            && s3.threads[t := Returned] == s.threads[t := Returned]
            && s3.started == 1 && s3.finished == 0 && s3.data == After(f, 0, s.data)
  {
    var s1 := Step(f, s, t);
    assert s1.threads == s.threads[t := Cas] && s1.state == 0;
    var s2 := Step(f, s1, t);
    assert s2.threads == s.threads[t := Won];
  }

  /**
   * A caller that runs alone on a fresh flag has returned after |f| + 5 of its own steps: the load, the
   * compare-exchange, the call, the steps of the callable and its end, and the store. The callable has
   * then run once, the state is 2, and no other thread has moved.
   */
  lemma FirstCallerReturns<S>(f: Callable<S>, s: Machine<S>, t: nat)
    requires Initial(s) && t < |s.threads|
    ensures ValidRun(f, s, Alone(t, |f| + 5))
    ensures var s' := Run(f, s, Alone(t, |f| + 5));
            && s'.threads == s.threads[t := Returned] && s'.state == 2
            && s'.started == s'.finished == 1 && s'.data == After(f, |f|, s.data)
  {
    WinsTheFlag(f, s, t);
    hide Step, After, ValidRun, Run, Alone;
    var s1 := Step(f, s, t);
    var s2 := Step(f, s1, t);
    AloneStep(f, s, t, |f| + 5);
    AloneStep(f, s1, t, |f| + 4);
    AloneStep(f, s2, t, |f| + 3);
    OwnerAlone(f, Step(f, s2, t), t, 0, s.data);
  }

  /** An instance: a callable of two steps runs the first and then the second. */
  lemma StepsRunInOrder<S>(first: S -> S, second: S -> S, s: Machine<S>)
    requires Initial(s) && |s.threads| == 1
    ensures var f := [first, second];
            ValidRun(f, s, Alone(0, 7)) && Run(f, s, Alone(0, 7)).data == second(first(s.data))
  {
    var f := [first, second];
    FirstCallerReturns(f, s, 0);
    assert After(f, 2, s.data) == f[1](After(f, 1, s.data));
    assert After(f, 1, s.data) == f[0](s.data);
  }

  /** How much a thread can still do, waiting aside. */
  function Left<S>(f: Callable<S>, pc: Pc): nat {
    match pc
    case Start => |f| + 6
    case Cas => |f| + 5
    case Won => |f| + 4
    case Running(k) => if k <= |f| then |f| - k + 3 else 3
    case Finished => 2
    case Waiting => 1
    case Returned => 0
  }

  function TotalLeft<S>(f: Callable<S>, threads: seq<Pc>): nat {
    if threads == [] then 0 else Left(f, threads[0]) + TotalLeft(f, threads[1..])
  }

  lemma {:induction false} OneChanged<S>(f: Callable<S>, threads: seq<Pc>, t: nat, pc: Pc)
    requires t < |threads|
    ensures TotalLeft(f, threads[t := pc]) + Left(f, threads[t]) == TotalLeft(f, threads) + Left(f, pc)
    decreases |threads|
  {
    if t == 0 {
      assert threads[0 := pc][1..] == threads[1..];
    } else {
      assert threads[t := pc][1..] == threads[1..][t - 1 := pc];
      OneChanged(f, threads[1..], t - 1, pc);
    }
  }

  lemma {:induction false} AllReturnedIff<S>(f: Callable<S>, threads: seq<Pc>)
    ensures TotalLeft(f, threads) == 0 <==> forall t | 0 <= t < |threads| :: threads[t].Returned?
    decreases |threads|
  {
    if threads != [] {
      AllReturnedIff(f, threads[1..]);
      assert forall t | 0 < t < |threads| :: threads[t] == threads[1..][t - 1];
    }
  }

  /** A step lowers what its thread can still do, unless the thread waits while the state is not 2. */
  lemma StepLowers<S>(f: Callable<S>, s: Machine<S>, t: nat)
    requires Enabled(s, t)
    ensures var threads := Step(f, s, t).threads;
            if s.threads[t].Waiting? && s.state != 2 then threads == s.threads
            else TotalLeft(f, threads) < TotalLeft(f, s.threads)
  {
    OneChanged(f, s.threads, t, Step(f, s, t).threads[t]);
    if s.threads[t].Waiting? && s.state != 2 {
      assert s.threads[t := Waiting] == s.threads;
    }
  }

  lemma SomeStepLowers<S>(f: Callable<S>, d: S, s: Machine<S>, t: nat) returns (o: nat)
    requires Inv(f, d, s) && t < |s.threads| && !s.threads[t].Returned?
    ensures Enabled(s, o) && TotalLeft(f, Step(f, s, o).threads) < TotalLeft(f, s.threads)
  {
    o := t;
    if s.threads[t].Waiting? && s.state != 2 {
      o :| OwnedBy(f, d, s, o);
    }
    StepLowers(f, s, o);
  }

  /**
   * No call is ever stuck: in every reachable state in which some thread has not returned, some enabled
   * step lowers what all the threads together can still do, and no step raises it.
   */
  lemma SomeoneProgresses<S>(f: Callable<S>, s: Machine<S>, run: seq<nat>, t: nat)
    requires Initial(s) && ValidRun(f, s, run)
    requires t < |Run(f, s, run).threads| && !Run(f, s, run).threads[t].Returned?
    ensures var s' := Run(f, s, run);
            && (exists o: nat :: Enabled(s', o) && TotalLeft(f, Step(f, s', o).threads) < TotalLeft(f, s'.threads))
            && forall u: nat | Enabled(s', u) :: TotalLeft(f, Step(f, s', u).threads) <= TotalLeft(f, s'.threads)
  {
    var s' := Run(f, s, run);
    RunKeeps(f, s.data, s, run);
    var o := SomeStepLowers(f, s.data, s', t);
    forall u: nat | Enabled(s', u)
      ensures TotalLeft(f, Step(f, s', u).threads) <= TotalLeft(f, s'.threads)
    {
      StepLowers(f, s', u);
    }
  }

  /** From every reachable state the run can go on until every call has returned. */
  lemma EveryCallCanReturn<S>(f: Callable<S>, s: Machine<S>, run: seq<nat>) returns (more: seq<nat>)
    requires Initial(s) && ValidRun(f, s, run)
    ensures ValidRun(f, s, run + more)
    ensures var s' := Run(f, s, run + more);
            |s'.threads| == |s.threads| && forall t | 0 <= t < |s'.threads| :: s'.threads[t].Returned?
  {
    RunKeeps(f, s.data, s, run);
    more := CanReturn(f, s.data, Run(f, s, run));
    RunJoins(f, s, run, more);
    ThreadsStay(f, s, run + more);
  }

  lemma {:induction false} CanReturn<S>(f: Callable<S>, d: S, s: Machine<S>) returns (more: seq<nat>)
    requires Inv(f, d, s)
    ensures ValidRun(f, s, more)
    ensures forall t | 0 <= t < |Run(f, s, more).threads| :: Run(f, s, more).threads[t].Returned?
    decreases TotalLeft(f, s.threads)
  {
    AllReturnedIff(f, s.threads);
    more := [];
    if t: nat :| t < |s.threads| && !s.threads[t].Returned? {
      var o := SomeStepLowers(f, d, s, t);
      StepKeeps(f, d, s, o);
      var rest := CanReturn(f, d, Step(f, s, o));
      more := [o] + rest;
      assert more[1..] == rest;
    }
  }

  lemma {:induction false} RunJoins<S>(f: Callable<S>, s: Machine<S>, xs: seq<nat>, ys: seq<nat>)
    requires ValidRun(f, s, xs) && ValidRun(f, Run(f, s, xs), ys)
    ensures ValidRun(f, s, xs + ys) && Run(f, s, xs + ys) == Run(f, Run(f, s, xs), ys)
    decreases |xs|
  {
    if xs == [] {
      assert xs + ys == ys;
    } else {
      assert (xs + ys)[1..] == xs[1..] + ys;
      RunJoins(f, Step(f, s, xs[0]), xs[1..], ys);
    }
  }

  /** once_flag with the three atomic instructions that call_once performs on it. */
  class OnceFlag {
    var state: int

    constructor ()
      ensures state == 0
    {
      state := 0;
    }

    method Load() returns (v: int)
      ensures v == state
    {
      v := state;
    }

    method CompareExchangeStrong(expected: int, desired: int) returns (seen: int, ok: bool)
      modifies this
      ensures (state, ok) == CompareExchange(old(state), expected, desired)
      ensures seen == old(state) && (ok <==> seen == expected) && state == if ok then desired else seen
    {
      seen := state;
      ok := seen == expected;
      if ok {
        state := desired;
      }
    }

    method Store(v: int)
      modifies this
      ensures state == v
    {
      state := v;
    }
  }

  /** Threads inside call_once on one flag: each call of Advance executes one thread's next instruction in place. */
  class Callers<S> {
    const flag: OnceFlag
    const pcs: array<Pc>
    const f: Callable<S>
    var data: S
    ghost var started: nat
    ghost var finished: nat

    ghost function View(): Machine<S>
      reads this, flag, pcs
    {
      Machine(flag.state, data, pcs[..], started, finished)
    }

    constructor (n: nat, f: Callable<S>, data: S)
      ensures fresh(flag) && fresh(pcs) && this.f == f && this.data == data
      ensures |View().threads| == n && Initial(View())
    {
      flag := new OnceFlag();
      pcs := new Pc[n](_ => Start);
      this.f, this.data, started, finished := f, data, 0, 0;
    }

    method Advance(t: nat)
      requires Enabled(View(), t)
      modifies this, flag, pcs
      ensures View() == Step(f, old(View()), t)
    {
      match pcs[t]
      case Start =>
        var v := flag.Load();
        pcs[t] := if v == 2 then Returned else Cas;
      case Cas =>
        var _, won := flag.CompareExchangeStrong(0, 1);
        pcs[t] := if won then Won else Waiting;
      case Won =>
        started := started + 1;
        pcs[t] := Running(0);
      case Running(k) =>
        if k < |f| {
          data := f[k](data);
          pcs[t] := Running(k + 1);
        } else {
          finished := finished + 1;
          pcs[t] := Finished;
        }
      case Finished =>
        flag.Store(2);
        pcs[t] := Returned;
      case Waiting =>
        var v := flag.Load();
        if v == 2 {
          pcs[t] := Returned;
        }
    }
  }
}
