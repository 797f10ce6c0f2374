/**
 * The xchg spinlock: any number of threads run critical sections of several steps each, one atomic
 * instruction at a time, in any interleaving.
 */
module SpinLock {
  import opened MachineWords

  /** One step of a critical section: it may read and change the shared data and the thread's own. */
  type Action<!S, !L> = (S, L) -> (S, L)

  /** The sections a thread runs, one per round. */
  type Program<!S, !L> = (nat, nat) -> seq<Action<S, L>>

  datatype Pc = Idle | Spinning | Inside(k: nat)

  datatype Thread<L> = Thread(pc: Pc, round: nat, local: L)

  /** The log lists the acquisitions so far as (thread, round). */
  datatype Machine<S, L> = Machine(flag: byte, shared: S, threads: seq<Thread<L>>, log: seq<(nat, nat)>)

  /** One instruction of thread t. */
  datatype Instr = Begin(t: nat) | Exchange(t: nat) | TryExchange(t: nat) | Act(t: nat) | Store(t: nat)

  /** lock xchg of 1 with the flag: the new flag, and whether the lock was free. */
  function Xchg(flag: byte): (byte, bool) {
    (1, flag == 0)
  }

  predicate Enabled<S, L>(prog: Program<S, L>, s: Machine<S, L>, i: Instr) {
    i.t < |s.threads| &&
    var th := s.threads[i.t];
    match i
    case Begin(_) => th.pc.Idle?
    case Exchange(_) => th.pc.Spinning?
    case TryExchange(_) => th.pc.Idle?
    case Act(t) => th.pc.Inside? && th.pc.k < |prog(t, th.round)|
    case Store(t) => th.pc.Inside? && th.pc.k == |prog(t, th.round)|
  }

  function Step<S, L>(prog: Program<S, L>, s: Machine<S, L>, i: Instr): Machine<S, L>
    requires Enabled(prog, s, i)
  {
    var t, th := i.t, s.threads[i.t];
    match i
    case Begin(_) => s.(threads := s.threads[t := th.(pc := Spinning)])
    case Exchange(_) => Acquire(s, t, Spinning)
    case TryExchange(_) => Acquire(s, t, Idle)
    case Act(_) =>
      var (shared, local) := prog(t, th.round)[th.pc.k](s.shared, th.local);
      s.(shared := shared, threads := s.threads[t := th.(pc := Inside(th.pc.k + 1), local := local)])
    case Store(_) =>
      s.(flag := 0, threads := s.threads[t := th.(pc := Idle, round := th.round + 1)])
  }

  /** The exchange that lock repeats and try_lock makes once; failed is where a failing thread continues. */
  function Acquire<S, L>(s: Machine<S, L>, t: nat, failed: Pc): Machine<S, L>
    requires t < |s.threads|
  {
    var (flag, free) := Xchg(s.flag);
    var th := s.threads[t];
    if free then s.(flag := flag, threads := s.threads[t := th.(pc := Inside(0))], log := s.log + [(t, th.round)])
    else s.(flag := flag, threads := s.threads[t := th.(pc := failed)])
  }

  ghost predicate ValidRun<S, L>(prog: Program<S, L>, s: Machine<S, L>, run: seq<Instr>)
    decreases |run|
  {
    run == [] || (Enabled(prog, s, run[0]) && ValidRun(prog, Step(prog, s, run[0]), run[1..]))
  }

  function Run<S, L>(prog: Program<S, L>, s: Machine<S, L>, run: seq<Instr>): Machine<S, L>
    requires ValidRun(prog, s, run)
    decreases |run|
  {
    if run == [] then s else Run(prog, Step(prog, s, run[0]), run[1..])
  }

  // ----- running sections whole

  datatype World<S, L> = World(shared: S, locals: seq<L>)

  function WorldOf<S, L>(s: Machine<S, L>): World<S, L> {
    World(s.shared, seq(|s.threads|, i requires 0 <= i < |s.threads| => s.threads[i].local))
  }

  /** The first k actions of a section, without interruption. */
  function Fold<S, L>(actions: seq<Action<S, L>>, k: nat, shared: S, local: L): (S, L)
    requires k <= |actions|
  {
    if k == 0 then (shared, local)
    else
      var (s, l) := Fold(actions, k - 1, shared, local);
      actions[k - 1](s, l)
  }

  function Section<S, L>(prog: Program<S, L>, w: World<S, L>, t: nat, round: nat, k: nat): World<S, L>
    requires t < |w.locals| && k <= |prog(t, round)|
  {
    var (s, l) := Fold(prog(t, round), k, w.shared, w.locals[t]);
    World(s, w.locals[t := l])
  }

  /** Every section of the log run whole, one after the other. */
  function Serial<S, L>(prog: Program<S, L>, w: World<S, L>, log: seq<(nat, nat)>): (r: World<S, L>)
    requires forall i | 0 <= i < |log| :: log[i].0 < |w.locals|
    ensures |r.locals| == |w.locals|
  {
    if log == [] then w
    else
      var (t, round) := log[|log| - 1];
      Section(prog, Serial(prog, w, log[..|log| - 1]), t, round, |prog(t, round)|)
  }

  // ----- the invariant

  predicate IsInside<S, L>(s: Machine<S, L>, t: nat) {
    t < |s.threads| && s.threads[t].pc.Inside?
  }

  ghost predicate LogInRange<S, L>(s: Machine<S, L>) {
    forall i | 0 <= i < |s.log| :: s.log[i].0 < |s.threads|
  }

  /** While the lock is free, all acquired sections have run whole, in acquisition order. */
  ghost predicate Free<S, L>(prog: Program<S, L>, w: World<S, L>, s: Machine<S, L>)
    requires |w.locals| == |s.threads| && LogInRange(s)
  {
    && (forall t :: !IsInside(s, t))
    && WorldOf(s) == Serial(prog, w, s.log)
  }

  /** While it is taken, the last acquirer alone is inside, part of the way through its section. */
  ghost predicate Taken<S, L>(prog: Program<S, L>, w: World<S, L>, s: Machine<S, L>)
    requires |w.locals| == |s.threads| && LogInRange(s)
  {
    s.log != [] &&
    var (t, round) := s.log[|s.log| - 1];
    && IsInside(s, t) && (forall u :: IsInside(s, u) ==> u == t)
    && s.threads[t].round == round && s.threads[t].pc.k <= |prog(t, round)|
    && WorldOf(s) == Section(prog, Serial(prog, w, s.log[..|s.log| - 1]), t, round, s.threads[t].pc.k)
  }

  ghost predicate Inv<S, L>(prog: Program<S, L>, w: World<S, L>, s: Machine<S, L>) {
    && |w.locals| == |s.threads|
    && LogInRange(s)
    && s.flag <= 1
    && (if s.flag == 0 then Free(prog, w, s) else Taken(prog, w, s))
  }

  /** All threads idle and the lock free. */
  ghost predicate Initial<S, L>(s: Machine<S, L>) {
    s.flag == 0 && s.log == [] && forall t | 0 <= t < |s.threads| :: s.threads[t].pc.Idle? && s.threads[t].round == 0
  }

  lemma InitialHolds<S, L>(prog: Program<S, L>, s: Machine<S, L>)
    requires Initial(s)
    ensures Inv(prog, WorldOf(s), s)
  {
  }

  lemma AcquireKeeps<S, L>(prog: Program<S, L>, w: World<S, L>, s: Machine<S, L>, t: nat, failed: Pc)
    requires Inv(prog, w, s) && t < |s.threads| && !s.threads[t].pc.Inside? && !failed.Inside?
    ensures Inv(prog, w, Acquire(s, t, failed))
  {
    var s' := Acquire(s, t, failed);
    assert WorldOf(s') == WorldOf(s);
    if s.flag == 0 {
      assert s'.log[..|s'.log| - 1] == s.log;
      var serial, round := Serial(prog, w, s.log), s.threads[t].round;
      assert serial.locals[t := serial.locals[t]] == serial.locals;
      assert Section(prog, serial, t, round, 0) == serial;
      assert s'.threads[t].pc == Inside(0);
      assert forall u :: !IsInside(s, u);
      assert forall u :: IsInside(s', u) ==> IsInside(s, u) || u == t;
    } else {
      OthersKeepTaken(prog, w, s, s', t);
    }
  }

  /** A step of a thread outside changes neither the holder nor any data. */
  lemma OthersKeepTaken<S, L>(prog: Program<S, L>, w: World<S, L>, s: Machine<S, L>, s': Machine<S, L>, t: nat)
    requires Inv(prog, w, s) && s.flag == 1 && t < |s.threads| && !s.threads[t].pc.Inside?
    requires |s'.threads| == |s.threads| && s' == s.(threads := s.threads[t := s'.threads[t]])
    requires !s'.threads[t].pc.Inside? && s'.threads[t].local == s.threads[t].local
    ensures Inv(prog, w, s')
  {
    var h := s.log[|s.log| - 1].0;
    assert IsInside(s, h);
    assert s'.threads[h] == s.threads[h];
    assert forall u :: IsInside(s', u) <==> IsInside(s, u);
    assert WorldOf(s') == WorldOf(s);
  }

  lemma StepKeeps<S, L>(prog: Program<S, L>, w: World<S, L>, s: Machine<S, L>, i: Instr)
    requires Inv(prog, w, s) && Enabled(prog, s, i)
    ensures Inv(prog, w, Step(prog, s, i))
  {
    match i
    case Begin(t) =>
      var s' := Step(prog, s, i);
      if s.flag == 1 {
        OthersKeepTaken(prog, w, s, s', t);
      } else {
        assert WorldOf(s') == WorldOf(s);
        assert forall u :: IsInside(s', u) <==> IsInside(s, u);
      }
    case Exchange(t) => AcquireKeeps(prog, w, s, t, Spinning);
    case TryExchange(t) => AcquireKeeps(prog, w, s, t, Idle);
    case Act(t) => ActKeeps(prog, w, s, t);
    case Store(t) => StoreKeeps(prog, w, s, t);
  }

  lemma ActKeeps<S, L>(prog: Program<S, L>, w: World<S, L>, s: Machine<S, L>, t: nat)
    requires Inv(prog, w, s) && Enabled(prog, s, Act(t))
    ensures Inv(prog, w, Step(prog, s, Act(t)))
  {
    var s' := Step(prog, s, Act(t));
    assert IsInside(s, t);
    assert t == s.log[|s.log| - 1].0;
    var base := Serial(prog, w, s.log[..|s.log| - 1]);
    var k, round := s.threads[t].pc.k, s.threads[t].round;
    assert WorldOf(s).locals[t] == s.threads[t].local;
    assert WorldOf(s').locals == WorldOf(s).locals[t := s'.threads[t].local];
    assert base.locals[t := s.threads[t].local][t := s'.threads[t].local] == base.locals[t := s'.threads[t].local];
    assert WorldOf(s') == Section(prog, base, t, round, k + 1);
    assert forall u :: IsInside(s', u) <==> IsInside(s, u);
  }

  lemma StoreKeeps<S, L>(prog: Program<S, L>, w: World<S, L>, s: Machine<S, L>, t: nat)
    requires Inv(prog, w, s) && Enabled(prog, s, Store(t))
    ensures Inv(prog, w, Step(prog, s, Store(t)))
  {
    var s' := Step(prog, s, Store(t));
    assert IsInside(s, t);
    assert t == s.log[|s.log| - 1].0;
    assert WorldOf(s') == WorldOf(s);
    assert forall u | u != t :: !IsInside(s, u);
    assert forall u :: IsInside(s', u) ==> IsInside(s, u) && u != t;
  }

  lemma {:induction false} RunKeeps<S, L>(prog: Program<S, L>, w: World<S, L>, s: Machine<S, L>, run: seq<Instr>)
    requires Inv(prog, w, s) && ValidRun(prog, s, run)
    ensures Inv(prog, w, Run(prog, s, run))
    decreases |run|
  {
    if run != [] {
      StepKeeps(prog, w, s, run[0]);
      RunKeeps(prog, w, Step(prog, s, run[0]), run[1..]);
    }
  }

  // ----- the theorems

  /** In every reachable state the flag is 1 exactly when some thread holds the lock, and at most one does. */
  lemma MutualExclusion<S, L>(prog: Program<S, L>, s: Machine<S, L>, run: seq<Instr>)
    requires Initial(s) && ValidRun(prog, s, run)
    ensures var s' := Run(prog, s, run);
            && s'.flag <= 1
            && (s'.flag == 1 <==> exists t :: IsInside(s', t))
            && forall t, u | IsInside(s', t) && IsInside(s', u) :: t == u
  {
    InitialHolds(prog, s);
    RunKeeps(prog, WorldOf(s), s, run);
    var s' := Run(prog, s, run);
    if s'.flag == 1 {
      assert IsInside(s', s'.log[|s'.log| - 1].0);
    }
  }

  /**
   * Critical sections are serialised: whenever the lock is free, shared and thread-local data are
   * what running the sections whole, in the order of acquisition, gives; while it is taken, only
   * the first k actions of the last acquired section have been added to that.
   */
  lemma SectionsAreSerialised<S, L>(prog: Program<S, L>, s: Machine<S, L>, run: seq<Instr>)
    requires Initial(s) && ValidRun(prog, s, run)
    ensures var s' := Run(prog, s, run);
            Inv(prog, WorldOf(s), s') &&
            if s'.flag == 0 then WorldOf(s') == Serial(prog, WorldOf(s), s'.log)
            else
              var n := |s'.log| - 1;
              var (t, round) := s'.log[n];
              && IsInside(s', t) && s'.threads[t].pc.k <= |prog(t, round)|
              && WorldOf(s') == Section(prog, Serial(prog, WorldOf(s), s'.log[..n]), t, round, s'.threads[t].pc.k)
  {
    InitialHolds(prog, s);
    RunKeeps(prog, WorldOf(s), s, run);
  }

  function CountOf(log: seq<(nat, nat)>, t: nat): nat {
    if log == [] then 0 else CountOf(log[..|log| - 1], t) + (if log[|log| - 1].0 == t then 1 else 0)
  }

  /** A thread's acquisitions so far: its completed rounds and the one it is in. */
  ghost predicate Counted<S, L>(s: Machine<S, L>) {
    && (forall t | 0 <= t < |s.threads| ::
          CountOf(s.log, t) == s.threads[t].round + (if s.threads[t].pc.Inside? then 1 else 0))
    && (forall i | 0 <= i < |s.log| :: s.log[i].1 == CountOf(s.log[..i], s.log[i].0))
  }

  lemma StepCounts<S, L>(prog: Program<S, L>, s: Machine<S, L>, i: Instr)
    requires Counted(s) && Enabled(prog, s, i)
    ensures Counted(Step(prog, s, i))
  {
    var s' := Step(prog, s, i);
    if s'.log != s.log {
      var n := |s.log|;
      assert s'.log[..n] == s.log;
      assert forall j | 0 <= j < n :: s'.log[..j] == s.log[..j];
    }
  }

  lemma {:induction false} RunCounts<S, L>(prog: Program<S, L>, s: Machine<S, L>, run: seq<Instr>)
    requires Counted(s) && ValidRun(prog, s, run)
    ensures Counted(Run(prog, s, run))
    decreases |run|
  {
    if run != [] {
      StepCounts(prog, s, run[0]);
      RunCounts(prog, Step(prog, s, run[0]), run[1..]);
    }
  }

  /** The log holds every thread's sections once each, in the thread's own order: round 0, then 1, and so on. */
  lemma LogFollowsPrograms<S, L>(prog: Program<S, L>, s: Machine<S, L>, run: seq<Instr>)
    requires Initial(s) && ValidRun(prog, s, run)
    ensures Counted(Run(prog, s, run))
  {
    RunCounts(prog, s, run);
  }

  /** The lock never wedges: in every reachable state in which a thread spins, it or the holder can move on. */
  lemma SomeoneCanMove<S, L>(prog: Program<S, L>, s: Machine<S, L>, run: seq<Instr>, t: nat)
    requires Initial(s) && ValidRun(prog, s, run)
    requires t < |Run(prog, s, run).threads| && Run(prog, s, run).threads[t].pc.Spinning?
    ensures var s' := Run(prog, s, run);
            if s'.flag == 0
            then Enabled(prog, s', Exchange(t)) && Step(prog, s', Exchange(t)).threads[t].pc == Inside(0)
            else exists u :: Enabled(prog, s', Act(u)) || Enabled(prog, s', Store(u))
  {
    InitialHolds(prog, s);
    RunKeeps(prog, WorldOf(s), s, run);
    HolderCanMove(prog, WorldOf(s), Run(prog, s, run));
  }

  lemma HolderCanMove<S, L>(prog: Program<S, L>, w: World<S, L>, s: Machine<S, L>)
    requires Inv(prog, w, s)
    ensures s.flag != 0 ==> exists u :: Enabled(prog, s, Act(u)) || Enabled(prog, s, Store(u))
  {
    if s.flag != 0 {
      var u := s.log[|s.log| - 1].0;
      assert IsInside(s, u);
      assert Enabled(prog, s, Act(u)) || Enabled(prog, s, Store(u));
    }
  }

  // ----- the ways into the lock, and out of it

  /**
   * try_lock returns after its one exchange: with the lock if it was free, and otherwise with its thread,
   * every other thread and the data exactly as they were.
   */
  lemma TryLockReturns<S, L>(prog: Program<S, L>, s: Machine<S, L>, t: nat)
    requires Enabled(prog, s, TryExchange(t)) && s.flag <= 1
    ensures var s' := Step(prog, s, TryExchange(t));
            && s'.flag == 1 && s'.shared == s.shared && |s'.threads| == |s.threads|
            && (forall u | 0 <= u < |s.threads| && u != t :: s'.threads[u] == s.threads[u])
            && if s.flag == 0
               then s'.threads[t] == s.threads[t].(pc := Inside(0)) && s'.log == s.log + [(t, s.threads[t].round)]
               else s' == s
  {
    assert s.threads[t := s.threads[t].(pc := Idle)] == s.threads;
  }

  /** lock starts to spin; an exchange lets it in if the lock is free and leaves everything as it was otherwise. */
  lemma LockSpins<S, L>(prog: Program<S, L>, s: Machine<S, L>, t: nat)
    requires t < |s.threads| && s.flag <= 1
    ensures s.threads[t].pc.Idle? ==>
      Enabled(prog, s, Begin(t)) && Step(prog, s, Begin(t)) == s.(threads := s.threads[t := s.threads[t].(pc := Spinning)])
    ensures s.threads[t].pc.Spinning? ==>
      && Enabled(prog, s, Exchange(t))
      && Step(prog, s, Exchange(t)) ==
         if s.flag == 0
         then s.(flag := 1, threads := s.threads[t := s.threads[t].(pc := Inside(0))], log := s.log + [(t, s.threads[t].round)])
         else s
  {
    if s.threads[t].pc.Spinning? {
      assert s.threads[t := s.threads[t].(pc := Spinning)] == s.threads;
    }
  }

  /** Only lock waits: a thread that never begins it spins in no reachable state. */
  lemma {:induction false} OnlyLockSpins<S, L>(prog: Program<S, L>, s: Machine<S, L>, run: seq<Instr>, t: nat)
    requires ValidRun(prog, s, run) && Begin(t) !in run && t < |s.threads| && !s.threads[t].pc.Spinning?
    ensures t < |Run(prog, s, run).threads| && !Run(prog, s, run).threads[t].pc.Spinning?
    decreases |run|
  {
    if run != [] {
      OnlyLockSpins(prog, Step(prog, s, run[0]), run[1..], t);
    }
  }

  /** A run of one thread's section from its k-th action on, up to and including the store. */
  function Rest(t: nat, n: nat): seq<Instr> {
    if n == 0 then [Store(t)] else [Act(t)] + Rest(t, n - 1)
  }

  /** The holder alone runs the rest of its section, in order, and then releases the lock. */
  lemma {:induction false} HolderAlone<S, L>(prog: Program<S, L>, s: Machine<S, L>, t: nat, d: (S, L))
    requires t < |s.threads| && s.threads[t].pc.Inside?
    requires var section := prog(t, s.threads[t].round);
             s.threads[t].pc.k <= |section| && (s.shared, s.threads[t].local) == Fold(section, s.threads[t].pc.k, d.0, d.1)
    ensures var section := prog(t, s.threads[t].round);
            var run := Rest(t, |section| - s.threads[t].pc.k);
            ValidRun(prog, s, run) &&
            var s' := Run(prog, s, run);
            && s'.flag == 0 && |s'.threads| == |s.threads| && s'.log == s.log
            && s'.threads[t].pc == Idle && s'.threads[t].round == s.threads[t].round + 1
            && (s'.shared, s'.threads[t].local) == Fold(section, |section|, d.0, d.1)
            && forall u | 0 <= u < |s.threads| && u != t :: s'.threads[u] == s.threads[u]
    decreases |prog(t, s.threads[t].round)| - s.threads[t].pc.k
  {
    var section := prog(t, s.threads[t].round);
    var run := Rest(t, |section| - s.threads[t].pc.k);
    if s.threads[t].pc.k == |section| {
      assert run[1..] == [];
    } else {
      var s1 := Step(prog, s, Act(t));
      assert run[1..] == Rest(t, |section| - s1.threads[t].pc.k);
      HolderAlone(prog, s1, t, d);
    }
  }

  /** An instance: a section of two actions runs the first and then the second. */
  lemma ActionsRunInOrder<S, L>(prog: Program<S, L>, first: Action<S, L>, second: Action<S, L>, s: Machine<S, L>)
    requires Initial(s) && |s.threads| == 1 && prog(0, 0) == [first, second]
    ensures var run := [TryExchange(0), Act(0), Act(0), Store(0)];
            var (x, l) := first(s.shared, s.threads[0].local);
            ValidRun(prog, s, run) && Run(prog, s, run).flag == 0 && Run(prog, s, run).shared == second(x, l).0
  {
    var run := [TryExchange(0), Act(0), Act(0), Store(0)];
    var s1 := Step(prog, s, TryExchange(0));
    var section := prog(0, 0);
    assert Fold(section, 0, s.shared, s.threads[0].local) == (s.shared, s.threads[0].local);
    assert Fold(section, 2, s.shared, s.threads[0].local)
        == section[1](Fold(section, 1, s.shared, s.threads[0].local).0, Fold(section, 1, s.shared, s.threads[0].local).1);
    HolderAlone(prog, s1, 0, (s.shared, s.threads[0].local));
    assert run[1..] == [Act(0), Act(0), Store(0)] == Rest(0, 2);
  }

  /** How many steps thread t has to go until it is idle, once it has the lock. */
  function Left<S, L>(prog: Program<S, L>, t: nat, th: Thread<L>): nat {
    var n := |prog(t, th.round)|;
    match th.pc
    case Idle => 0
    case Spinning => n + 2
    case Inside(k) => if k <= n then n - k + 1 else 1
  }

  function TotalLeft<S, L>(prog: Program<S, L>, threads: seq<Thread<L>>): nat {
    if threads == [] then 0
    else TotalLeft(prog, threads[..|threads| - 1]) + Left(prog, |threads| - 1, threads[|threads| - 1])
  }

  lemma {:induction false} OneChanged<S, L>(prog: Program<S, L>, threads: seq<Thread<L>>, t: nat, th: Thread<L>)
    requires t < |threads|
    ensures TotalLeft(prog, threads[t := th]) + Left(prog, t, threads[t]) == TotalLeft(prog, threads) + Left(prog, t, th)
    decreases |threads|
  {
    var n := |threads| - 1;
    if t == n {
      assert threads[t := th][..n] == threads[..n];
    } else {
      assert threads[t := th][..n] == threads[..n][t := th];
      OneChanged(prog, threads[..n], t, th);
    }
  }

  lemma StepLowers<S, L>(prog: Program<S, L>, s: Machine<S, L>, i: Instr)
    requires Enabled(prog, s, i) && (i.Act? || i.Store? || (i.Exchange? && s.flag == 0))
    ensures TotalLeft(prog, Step(prog, s, i).threads) < TotalLeft(prog, s.threads)
  {
    OneChanged(prog, s.threads, i.t, Step(prog, s, i).threads[i.t]);
  }

  lemma SomeStepLowers<S, L>(prog: Program<S, L>, w: World<S, L>, s: Machine<S, L>, t: nat) returns (i: Instr)
    requires Inv(prog, w, s) && t < |s.threads| && !s.threads[t].pc.Idle?
    ensures Enabled(prog, s, i) && TotalLeft(prog, Step(prog, s, i).threads) < TotalLeft(prog, s.threads)
  {
    if s.flag == 0 {
      assert !IsInside(s, t);
      i := Exchange(t);
    } else {
      var u := s.log[|s.log| - 1].0;
      assert IsInside(s, u);
      i := if s.threads[u].pc.k < |prog(u, s.threads[u].round)| then Act(u) else Store(u);
    }
    StepLowers(prog, s, i);
  }

  /** No thread is ever stuck: from every reachable state the run can go on until all threads are idle. */
  lemma EveryThreadCanLeave<S, L>(prog: Program<S, L>, s: Machine<S, L>, run: seq<Instr>) returns (more: seq<Instr>)
    requires Initial(s) && ValidRun(prog, s, run)
    ensures ValidRun(prog, s, run + more)
    ensures var s' := Run(prog, s, run + more); s'.flag == 0 && forall t | 0 <= t < |s'.threads| :: s'.threads[t].pc.Idle?
  {
    InitialHolds(prog, s);
    RunKeeps(prog, WorldOf(s), s, run);
    more := CanLeave(prog, WorldOf(s), Run(prog, s, run));
    RunJoins(prog, s, run, more);
  }

  lemma {:induction false} CanLeave<S, L>(prog: Program<S, L>, w: World<S, L>, s: Machine<S, L>) returns (more: seq<Instr>)
    requires Inv(prog, w, s)
    ensures ValidRun(prog, s, more)
    ensures var s' := Run(prog, s, more); s'.flag == 0 && forall t | 0 <= t < |s'.threads| :: s'.threads[t].pc.Idle?
    decreases TotalLeft(prog, s.threads)
  {
    more := [];
    if t: nat :| t < |s.threads| && !s.threads[t].pc.Idle? {
      var i := SomeStepLowers(prog, w, s, t);
      StepKeeps(prog, w, s, i);
      var rest := CanLeave(prog, w, Step(prog, s, i));
      more := [i] + rest;
      assert more[1..] == rest;
    } else {
      HolderCanMove(prog, w, s);
    }
  }

  lemma {:induction false} RunJoins<S, L>(prog: Program<S, L>, s: Machine<S, L>, xs: seq<Instr>, ys: seq<Instr>)
    requires ValidRun(prog, s, xs) && ValidRun(prog, Run(prog, s, xs), ys)
    ensures ValidRun(prog, s, xs + ys) && Run(prog, s, xs + ys) == Run(prog, Run(prog, s, xs), ys)
    decreases |xs|
  {
    if xs == [] {
      assert xs + ys == ys;
    } else {
      assert (xs + ys)[1..] == xs[1..] + ys;
      RunJoins(prog, Step(prog, s, xs[0]), xs[1..], ys);
    }
  }

  /** The lock itself, one atomic instruction per method; lock() repeats Exchange until it succeeds. */
  class Lock {
    var flag: byte

    constructor ()
      ensures flag == 0
    {
      flag := 0;
    }

    method Exchange() returns (acquired: bool)
      modifies this
      ensures (flag, acquired) == Xchg(old(flag))
      ensures flag == 1 && (acquired <==> old(flag) == 0)
    {
      var tmp := 1;
      tmp, flag := flag, tmp;
      acquired := tmp == 0;
    }

    method TryLock() returns (acquired: bool)
      modifies this
      ensures (flag, acquired) == Xchg(old(flag))
      ensures flag == 1 && (acquired <==> old(flag) == 0)
    {
      acquired := Exchange();
    }

    method Unlock()
      modifies this
      ensures flag == 0
    {
      flag := 0;
    }
  }

  /** Threads that share one lock and one piece of data: each call of Perform executes one instruction in place. */
  class LockUsers<S, L> {
    const lock: Lock
    const threads: array<Thread<L>>
    const prog: Program<S, L>
    var shared: S
    ghost var log: seq<(nat, nat)>

    ghost function View(): Machine<S, L>
      reads this, lock, threads
    {
      Machine(lock.flag, shared, threads[..], log)
    }

    constructor (threads: array<Thread<L>>, prog: Program<S, L>, shared: S)
      requires forall t | 0 <= t < threads.Length :: threads[t].pc.Idle? && threads[t].round == 0
      ensures fresh(lock) && this.threads == threads && this.prog == prog && this.shared == shared
      ensures Initial(View())
    {
      lock := new Lock();
      this.threads, this.prog, this.shared, log := threads, prog, shared, [];
    }

    method Perform(i: Instr)
      requires Enabled(prog, View(), i)
      modifies this, lock, threads
      ensures View() == Step(prog, old(View()), i)
    {
      var t, th := i.t, threads[i.t];
      match i
      case Begin(_) =>
        threads[t] := th.(pc := Spinning);
      case Exchange(_) =>
        var acquired := lock.Exchange();
        Enter(t, acquired, Spinning);
      case TryExchange(_) =>
        var acquired := lock.TryLock();
        Enter(t, acquired, Idle);
      case Act(_) =>
        var (data, local) := prog(t, th.round)[th.pc.k](shared, th.local);
        shared := data;
        threads[t] := th.(pc := Inside(th.pc.k + 1), local := local);
      case Store(_) =>
        lock.Unlock();
        threads[t] := th.(pc := Idle, round := th.round + 1);
    }

    /** Where thread t continues after an exchange. */
    method Enter(t: nat, acquired: bool, failed: Pc)
      requires t < threads.Length
      modifies this`log, threads
      ensures threads[..] == old(threads[..])[t := old(threads[t]).(pc := if acquired then Inside(0) else failed)]
      ensures log == if acquired then old(log) + [(t, old(threads[t]).round)] else old(log)
    {
      if acquired {
        log := log + [(t, threads[t].round)];
        threads[t] := threads[t].(pc := Inside(0));
      } else {
        threads[t] := threads[t].(pc := failed);
      }
    }
  }
}
