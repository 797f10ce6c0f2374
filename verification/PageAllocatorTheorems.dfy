/** Properties of every run of the page allocator: conservation, ownership, order, and region exactness. */
module PageAllocatorTheorems {
  import opened MachineWords
  import opened FreeList
  import opened PageAllocatorSpec

  // ----- conservation

  /** A legal step other than a free keeps the books balanced and adds exactly the region's pages. */
  lemma StepConserves(cfg: Config, st: State, op: Op)
    requires Conserved(st) && Legal(cfg, st, op)
    requires op.Free? ==> Refused(cfg, st, op.phys)
    ensures var st' := Step(cfg, st, op).0;
            Conserved(st') && Universe(st') == Universe(st) + Added(op) && st'.total == st.total + |Added(op)|
  {
    assert Universe(st) + {} == Universe(st);
    match op
    case AddRegion(base, length) => AddRegionConserves(cfg, st, base, length);
    case Allocate => GrantConserves(cfg, st);
    case TryAllocate => GrantConserves(cfg, st);
    case Free(phys) =>
    case Reserve(base, length) => WithdrawConserves(st, RegionStart(base), RegionEnd(base, length));
  }

  lemma AddRegionConserves(cfg: Config, st: State, base: u64, length: u64)
    requires Conserved(st) && Legal(cfg, st, AddRegion(base, length))
    ensures var st' := Step(cfg, st, AddRegion(base, length)).0;
            && Conserved(st') && Universe(st') == Universe(st) + Elems(RegionPages(base, length))
            && st'.total == st.total + |Elems(RegionPages(base, length))|
  {
    RegionPagesNoDup(base, length);
    AddingConserves(cfg.fifo, st, RegionPages(base, length));
  }

  lemma RegionPagesNoDup(base: u64, length: u64)
    ensures NoDup(RegionPages(base, length))
  {
    AlignedRange(base);
    PagesAreTheMultiples(RegionStart(base), RegionEnd(base, length));
  }

  /** The three kinds of pages add up to the total. */
  lemma BooksBalance(st: State)
    requires Conserved(st)
    ensures |st.free| + |st.held| + |st.withdrawn| == st.total
  {
    ElemsCount(st.free);
    assert |Elems(st.free) + st.held| == |Elems(st.free)| + |st.held|;
  }

  lemma AddingConserves(fifo: bool, st: State, ps: seq<u64>)
    requires Conserved(st) && NoDup(ps) && Elems(ps) !! Universe(st) && 0 !in ps
    ensures var st' := st.(free := PushAll(fifo, st.free, ps), total := st.total + |ps|);
            Conserved(st') && Universe(st') == Universe(st) + Elems(ps) && |ps| == |Elems(ps)|
  {
    var st' := st.(free := PushAll(fifo, st.free, ps), total := st.total + |ps|);
    hide NoDup, PushAll;
    ElemsPushAll(fifo, st.free, ps);
    ElemsCount(ps);
    assert 0 !in Elems(ps);
    hide Elems;
    assert Universe(st') == Universe(st) + Elems(ps);
    assert |Universe(st) + Elems(ps)| == |Universe(st)| + |Elems(ps)|;
  }

  /** A held page that enters the list leaves its holder: nothing is lost. */
  lemma PushHeldConserves(fifo: bool, st: State, page: u64)
    requires Conserved(st) && page in st.held
    ensures var st' := st.(free := Push(fifo, st.free, page), held := st.held - {page});
            Conserved(st') && Universe(st') == Universe(st)
  {
    ElemsPush(fifo, st.free, page);
    assert Universe(st.(free := Push(fifo, st.free, page), held := st.held - {page})) == Universe(st);
  }

  /** Linking a held page under another address loses it. */
  lemma PushOtherLoses(fifo: bool, st: State, phys: u64, page: u64)
    requires Conserved(st) && phys in st.held && page != phys
    ensures var st' := st.(free := Push(fifo, st.free, page), held := st.held - {phys});
            phys in Universe(st) && phys !in Universe(st')
  {
    ElemsPush(fifo, st.free, page);
  }

  lemma ElemsTail(s: seq<u64>)
    requires NoDup(s) && s != []
    ensures NoDup(s[1..]) && Elems(s[1..]) == Elems(s) - {s[0]} && s[0] in Elems(s)
  {
  }

  lemma GrantConserves(cfg: Config, st: State)
    requires Conserved(st)
    ensures st.free != [] ==> Conserved(Grant(cfg, st).0) && Universe(Grant(cfg, st).0) == Universe(st)
  {
    if st.free != [] {
      ElemsTail(st.free);
      assert Universe(Grant(cfg, st).0) == Universe(st);
    }
  }

  lemma WithdrawConserves(st: State, lo: nat, hi: nat)
    requires Conserved(st)
    ensures Conserved(Withdraw(st, lo, hi)) && Universe(Withdraw(st, lo, hi)) == Universe(st)
  {
    OutsideIsFilter(st.free, lo, hi);
    assert Elems(Outside(st.free, lo, hi)) <= Elems(st.free);
    assert Universe(Withdraw(st, lo, hi)) == Universe(st);
  }

  /**
   * An accepted free of a held page keeps the set of pages exactly when the direct map's offset
   * is zero: the page is linked under its offset address but handed out again under the address it
   * is linked at.
   */
  lemma FreeOfHeldPageConservesIff(cfg: Config, st: State, phys: u64)
    requires Conserved(st) && phys in st.held && !Refused(cfg, st, phys)
    ensures var st' := Step(cfg, st, Free(phys)).0;
            Conserved(st') && Universe(st') == Universe(st) <==> cfg.Offset() == 0
  {
    FreeAccepted(cfg, st, phys);
    if cfg.Offset() == 0 {
      PushHeldConserves(cfg.fifo, st, phys);
    } else {
      PushOtherLoses(cfg.fifo, st, phys, Add64(phys, cfg.Offset()));
    }
  }

  lemma FreeAccepted(cfg: Config, st: State, phys: u64)
    requires !Refused(cfg, st, phys)
    ensures Step(cfg, st, Free(phys)).0
         == st.(free := Push(cfg.fifo, st.free, Add64(phys, cfg.Offset())), held := st.held - {phys})
    ensures Add64(phys, cfg.Offset()) == phys <==> cfg.Offset() == 0
  {
  }

  /**
   * An instance: with a direct map at 0x1000, a client that holds 0x100000 and frees it is later
   * handed 0x101000, and its own page is gone for good.
   */
  lemma OffsetLosesPage(cfg: Config)
    requires cfg.hhdm == Some(0x1000) && !cfg.fifo
    ensures var st := State([], 1, {0x10_0000}, {});
            var freed := Step(cfg, st, Free(0x10_0000)).0;
            && Conserved(st)
            && Step(cfg, freed, Allocate).1 == Granted(0x10_1000, 0x10_2000)
            && 0x10_0000 !in Universe(freed)
  {
    var st := State([], 1, {0x10_0000}, {});
    FreeOfHeldPageConservesIff(cfg, st, 0x10_0000);
    assert Step(cfg, st, Free(0x10_0000)).0.free == [0x10_1000];
  }

  /** Without an offset, an accepted free keeps the books balanced exactly when the client held the page. */
  lemma FreeConservesIffHeld(cfg: Config, st: State, phys: u64)
    requires Conserved(st) && cfg.Offset() == 0 && !Refused(cfg, st, phys)
    ensures Conserved(Step(cfg, st, Free(phys)).0) <==> phys in st.held
  {
    FreeAccepted(cfg, st, phys);
    if phys in st.held {
      FreeOfHeldPageConservesIff(cfg, st, phys);
    } else {
      PushUnbalances(cfg.fifo, st, phys);
    }
  }

  /**
   * An instance: a client that holds 0x1000 frees 0x2000, which nobody ever gave out; two pages are
   * accounted for, but one exists.
   */
  lemma StrayFreeUnbalances(cfg: Config)
    requires cfg.Offset() == 0
    ensures var st := State([], 1, {0x1000}, {});
            Conserved(st) && Step(cfg, st, Free(0x2000)).1 == Done && !Conserved(Step(cfg, st, Free(0x2000)).0)
  {
    var st := State([], 1, {0x1000}, {});
    assert Universe(st) == {0x1000};
    FreeConservesIffHeld(cfg, st, 0x2000);
  }

  lemma OneMore(st: State, st': State, page: u64)
    requires page !in Universe(st) && st'.held == st.held - {page} && st'.withdrawn == st.withdrawn
    requires Elems(st'.free) == Elems(st.free) + {page}
    ensures |Universe(st')| == |Universe(st)| + 1
  {
    hide Elems;
    assert Universe(st') == Universe(st) + {page};
  }

  lemma PushUnbalances(fifo: bool, st: State, phys: u64)
    requires Conserved(st) && phys !in st.held && phys !in st.free
    ensures !Conserved(st.(free := Push(fifo, st.free, phys), held := st.held - {phys}))
  {
    var st' := st.(free := Push(fifo, st.free, phys), held := st.held - {phys});
    hide NoDup, Push;
    ElemsPush(fifo, st.free, phys);
    assert phys in Elems(st'.free);
    if phys !in st.withdrawn {
      OneMore(st, st', phys);
    }
  }

  lemma LegalStepConserves(cfg: Config, st: State, op: Op)
    requires cfg.Offset() == 0 && Conserved(st) && Legal(cfg, st, op)
    ensures var st' := Step(cfg, st, op).0;
            Conserved(st') && Universe(st') == Universe(st) + Added(op)
  {
    if op.Free? && !Refused(cfg, st, op.phys) {
      FreeOfHeldPageConservesIff(cfg, st, op.phys);
    } else {
      StepConserves(cfg, st, op);
    }
  }

  lemma UnionAssociates(a: set<u64>, b: set<u64>, c: set<u64>)
    ensures (a + b) + c == a + (b + c)
  {
  }

  /**
   * Over every legal run without an offset: no page is lost, duplicated or invented, and the page
   * total counts exactly the pages added.
   */
  lemma {:induction false} RunConserves(cfg: Config, st: State, ops: seq<Op>)
    requires cfg.Offset() == 0 && Conserved(st) && LegalRun(cfg, st, ops)
    ensures Conserved(Run(cfg, st, ops))
    ensures Universe(Run(cfg, st, ops)) == Universe(st) + AllAdded(ops)
    decreases |ops|
  {
    if ops == [] {
      assert Universe(st) + AllAdded(ops) == Universe(st);
    } else {
      var op, st' := ops[0], Step(cfg, st, ops[0]).0;
      LegalStepConserves(cfg, st, op);
      RunConserves(cfg, st', ops[1..]);
      UnionAssociates(Universe(st), Added(op), AllAdded(ops[1..]));
    }
  }

  // ----- no page is handed out twice

  lemma {:induction false} RunAppend(cfg: Config, st: State, xs: seq<Op>, ys: seq<Op>)
    ensures Run(cfg, st, xs + ys) == Run(cfg, Run(cfg, st, xs), ys)
    ensures LegalRun(cfg, st, xs + ys) <==> LegalRun(cfg, st, xs) && LegalRun(cfg, Run(cfg, st, xs), ys)
    decreases |xs|
  {
    if xs == [] {
      assert xs + ys == ys;
    } else {
      assert (xs + ys)[1..] == xs[1..] + ys;
      RunAppend(cfg, Step(cfg, st, xs[0]).0, xs[1..], ys);
    }
  }

  /** A held page stays held for as long as it is not freed. */
  lemma {:induction false} HeldUntilFreed(cfg: Config, st: State, ops: seq<Op>, p: u64)
    requires p in st.held && Free(p) !in ops
    ensures p in Run(cfg, st, ops).held
    decreases |ops|
  {
    if ops != [] {
      HeldUntilFreed(cfg, Step(cfg, st, ops[0]).0, ops[1..], p);
    }
  }

  function OutcomeAt(cfg: Config, st: State, ops: seq<Op>, i: nat): Outcome
    requires i < |ops|
  {
    Step(cfg, Run(cfg, st, ops[..i]), ops[i]).1
  }

  /** What a run reports is what each of its calls reports in the state it finds. */
  lemma {:induction false} OutcomesAreSteps(cfg: Config, st: State, ops: seq<Op>, i: nat)
    requires i < |ops|
    ensures |Outcomes(cfg, st, ops)| == |ops| && Outcomes(cfg, st, ops)[i] == OutcomeAt(cfg, st, ops, i)
    decreases |ops|
  {
    var st' := Step(cfg, st, ops[0]).0;
    OutcomesCount(cfg, st', ops[1..]);
    if i > 0 {
      OutcomesAreSteps(cfg, st', ops[1..], i - 1);
      assert ops[..i][1..] == ops[1..][..i - 1];
    }
  }

  lemma {:induction false} OutcomesCount(cfg: Config, st: State, ops: seq<Op>)
    ensures |Outcomes(cfg, st, ops)| == |ops|
    decreases |ops|
  {
    if ops != [] {
      OutcomesCount(cfg, Step(cfg, st, ops[0]).0, ops[1..]);
    }
  }

  /**
   * What the calls of a run report: an allocation that finds a free page grants the first one; one that
   * finds none panics, or as a try reports that there is none; a free that is misaligned or of a page
   * listed under its mapped address is complained about, by panicking or not as configured; nothing else
   * is ever reported but success.
   */
  lemma CallsReport(cfg: Config, st: State, ops: seq<Op>, i: nat)
    requires i < |ops|
    ensures |Outcomes(cfg, st, ops)| == |ops|
    ensures var r, op, free := Outcomes(cfg, st, ops)[i], ops[i], Run(cfg, st, ops[..i]).free;
            var refused := op.Free? && (op.phys % 4096 != 0 || (op.phys + cfg.Offset()) % TWO64 in free);
            && (r.Granted? <==> (op.Allocate? || op.TryAllocate?) && free != [])
            && (r.Granted? ==> r.phys == free[0])
            && (r == Panic <==> (op.Allocate? && free == []) || (refused && cfg.panicOnError))
            && (r == NoPage <==> op.TryAllocate? && free == [])
            && (r == Rejected <==> refused && !cfg.panicOnError)
  {
    OutcomesAreSteps(cfg, st, ops, i);
    if ops[i].Free? {
      assert Add64(ops[i].phys, cfg.Offset()) == (ops[i].phys + cfg.Offset()) % TWO64;
    }
  }

  /** With complaints that do not panic, a run without Allocate never panics. */
  lemma TryingNeverPanics(cfg: Config, st: State, ops: seq<Op>)
    requires !cfg.panicOnError && Allocate !in ops
    ensures Panic !in Outcomes(cfg, st, ops)
  {
    OutcomesCount(cfg, st, ops);
    forall i | 0 <= i < |ops|
      ensures Outcomes(cfg, st, ops)[i] != Panic
    {
      CallsReport(cfg, st, ops, i);
    }
  }

  /** Between two grants of the same page in a legal run there is a free of that page. */
  lemma NoDoubleHandOut(cfg: Config, st: State, ops: seq<Op>, i: nat, j: nat)
    requires cfg.Offset() == 0 && Conserved(st) && LegalRun(cfg, st, ops)
    requires i < j < |ops|
    requires OutcomeAt(cfg, st, ops, i).Granted? && OutcomeAt(cfg, st, ops, j).Granted?
    requires OutcomeAt(cfg, st, ops, i).phys == OutcomeAt(cfg, st, ops, j).phys
    ensures Free(OutcomeAt(cfg, st, ops, i).phys) in ops[i + 1..j]
  {
    var p := OutcomeAt(cfg, st, ops, i).phys;
    var before, after := Run(cfg, st, ops[..i]), Step(cfg, Run(cfg, st, ops[..i]), ops[i]).0;
    var mid := ops[i + 1..j];
    RunSplit(cfg, st, ops, i, j);
    if Free(p) !in mid {
      GrantedIsHeld(cfg, before, ops[i]);
      HeldUntilFreed(cfg, after, mid, p);
      RunConserves(cfg, st, ops[..j]);
      GrantIsNew(cfg, Run(cfg, st, ops[..j]), ops[j]);
    }
  }

  lemma RunSplit(cfg: Config, st: State, ops: seq<Op>, i: nat, j: nat)
    requires i < j < |ops|
    ensures Run(cfg, st, ops[..j]) == Run(cfg, Step(cfg, Run(cfg, st, ops[..i]), ops[i]).0, ops[i + 1..j])
    ensures LegalRun(cfg, st, ops) ==> LegalRun(cfg, st, ops[..j])
  {
    hide Step, LegalRun;
    assert ops[..j] == ops[..i] + ops[i..j];
    RunAppend(cfg, st, ops[..i], ops[i..j]);
    assert ops[i..j][1..] == ops[i + 1..j];
    assert ops == ops[..j] + ops[j..];
    RunAppend(cfg, st, ops[..j], ops[j..]);
  }

  lemma GrantedIsHeld(cfg: Config, st: State, op: Op)
    requires Step(cfg, st, op).1.Granted?
    ensures Step(cfg, st, op).1.phys in Step(cfg, st, op).0.held
  {
  }

  lemma GrantIsNew(cfg: Config, st: State, op: Op)
    requires Conserved(st) && Step(cfg, st, op).1.Granted?
    ensures Step(cfg, st, op).1.phys !in st.held
  {
    assert Step(cfg, st, op).1.phys == st.free[0];
    assert st.free[0] in Elems(st.free);
  }

  // ----- robustness against arbitrary clients

  /** Every region that the run adds is without the null page and without pages that are free at that moment. */
  predicate RegionsAreNew(cfg: Config, st: State, ops: seq<Op>)
    decreases |ops|
  {
    ops == [] || (
      && (ops[0].AddRegion? ==> NewRegion(st, ops[0].base, ops[0].length))
      && RegionsAreNew(cfg, Step(cfg, st, ops[0]).0, ops[1..])
    )
  }

  predicate NewRegion(st: State, base: u64, length: u64) {
    var ps := RegionPages(base, length);
    0 !in ps && forall p | p in ps :: p !in st.free
  }

  /** Whatever page clients free, held or not, the list never holds a page twice. */
  lemma FreeKeepsNoDup(cfg: Config, st: State, phys: u64)
    requires NoDup(st.free) && cfg.Offset() == 0 && phys != 0
    ensures NoDup(Step(cfg, st, Free(phys)).0.free)
    ensures Refused(cfg, st, phys) ==> Step(cfg, st, Free(phys)).0 == st
  {
    if !Refused(cfg, st, phys) {
      ElemsPush(cfg.fifo, st.free, Add64(phys, cfg.Offset()));
    }
  }

  lemma AddKeepsNoDup(cfg: Config, st: State, base: u64, length: u64)
    requires NoDup(st.free) && 0 !in st.free && NewRegion(st, base, length)
    ensures var st' := Step(cfg, st, AddRegion(base, length)).0; NoDup(st'.free) && 0 !in st'.free
  {
    var ps := RegionPages(base, length);
    RegionPagesNoDup(base, length);
    ElemsPushAll(cfg.fifo, st.free, ps);
    assert 0 !in Elems(PushAll(cfg.fifo, st.free, ps));
  }

  /**
   * Over any run, with clients that free any page they like but the null page and with regions that are
   * new, no page is ever listed twice, and the null page never.
   */
  lemma {:induction false} RunKeepsNoDup(cfg: Config, st: State, ops: seq<Op>)
    requires NoDup(st.free) && 0 !in st.free && RegionsAreNew(cfg, st, ops)
    requires cfg.Offset() == 0 && Free(0) !in ops
    ensures NoDup(Run(cfg, st, ops).free) && 0 !in Run(cfg, st, ops).free
    decreases |ops|
  {
    if ops != [] {
      var op := ops[0];
      match op {
        case AddRegion(base, length) => AddKeepsNoDup(cfg, st, base, length);
        case Free(phys) => FreeKeepsNoDup(cfg, st, phys);
        case Reserve(base, length) => OutsideIsFilter(st.free, RegionStart(base), RegionEnd(base, length));
        case _ =>
      }
      RunKeepsNoDup(cfg, Step(cfg, st, op).0, ops[1..]);
    }
  }

  /** No call of the run reserves an interval with the page in it. */
  predicate NotReserved(ops: seq<Op>, page: u64) {
    forall i | 0 <= i < |ops| && ops[i].Reserve? ::
      !(RegionStart(ops[i].base) <= page < RegionEnd(ops[i].base, ops[i].length))
  }

  predicate NotGranted(rs: seq<Outcome>, page: u64) {
    forall i | 0 <= i < |rs| && rs[i].Granted? :: rs[i].phys != page
  }

  lemma FreeUnlessTaken(cfg: Config, st: State, op: Op, page: u64)
    requires page in st.free
    requires Step(cfg, st, op).1.Granted? ==> Step(cfg, st, op).1.phys != page
    requires op.Reserve? ==> !(RegionStart(op.base) <= page < RegionEnd(op.base, op.length))
    ensures page in Step(cfg, st, op).0.free
  {
    hide RegionStart, RegionEnd;
    match op
    case AddRegion(base, length) =>
      ElemsPushAll(cfg.fifo, st.free, RegionPages(base, length));
      assert page in Elems(PushAll(cfg.fifo, st.free, RegionPages(base, length)));
    case Reserve(base, length) => OutsideIsFilter(st.free, RegionStart(base), RegionEnd(base, length));
    case _ =>
  }

  /** A free page stays free for as long as it is neither granted nor reserved. */
  lemma {:induction false} StaysFree(cfg: Config, st: State, ops: seq<Op>, page: u64)
    requires page in st.free && NotGranted(Outcomes(cfg, st, ops), page) && NotReserved(ops, page)
    ensures page in Run(cfg, st, ops).free
    decreases |ops|
  {
    if ops != [] {
      var (st', r) := Step(cfg, st, ops[0]);
      var rs := Outcomes(cfg, st, ops);
      assert rs[0] == r && rs[1..] == Outcomes(cfg, st', ops[1..]);
      hide Step;
      FreeUnlessTaken(cfg, st, ops[0], page);
      assert forall i | 0 <= i < |ops| - 1 :: ops[1..][i] == ops[i + 1];
      StaysFree(cfg, st', ops[1..], page);
    }
  }

  /**
   * Until a freed page is granted again or reserved, every further free of it is refused, whatever else
   * happens, provided that added regions are new.
   */
  lemma SecondFreeIsRefused(cfg: Config, st: State, phys: u64, ops: seq<Op>)
    requires cfg.Offset() == 0 && phys != 0 && Free(0) !in ops
    requires var st1 := Step(cfg, st, Free(phys)).0;
             NotGranted(Outcomes(cfg, st1, ops), phys) && NotReserved(ops, phys) && RegionsAreNew(cfg, st1, ops)
    ensures var st2 := Run(cfg, Step(cfg, st, Free(phys)).0, ops);
            Step(cfg, st2, Free(phys)) == (st2, cfg.Complaint())
  {
    var st1 := Step(cfg, st, Free(phys)).0;
    if phys % PAGE_SIZE == 0 {
      ElemsPush(cfg.fifo, st.free, phys);
      assert phys in Elems(Push(cfg.fifo, st.free, phys));
      StaysFree(cfg, st1, ops, phys);
    }
  }

  // ----- allocation order

  /** Under the LIFO policy a free followed by an allocation hands back the page just freed, and undoes the free. */
  lemma LifoUndoesFree(cfg: Config, st: State, phys: u64)
    requires !cfg.fifo && cfg.Offset() == 0 && phys != 0 && phys in st.held && !Refused(cfg, st, phys)
    ensures var st' := Step(cfg, st, Free(phys)).0;
            Step(cfg, st', Allocate) == (st, Granted(phys, cfg.Virt(phys)))
  {
    assert st.held - {phys} + {phys} == st.held;
  }

  function Allocations(ops: seq<Op>): nat {
    if ops == [] then 0 else (if ops[0].Allocate? || ops[0].TryAllocate? then 1 else 0) + Allocations(ops[1..])
  }

  /**
   * Under the FIFO policy a free page moves to the front by one place per allocation, whatever else happens,
   * provided that added regions are new.
   */
  lemma {:induction false} FifoOrder(cfg: Config, st: State, ops: seq<Op>, k: nat)
    requires cfg.fifo && cfg.Offset() == 0 && Free(0) !in ops && k < |st.free|
    requires RegionsAreNew(cfg, st, ops) && forall i | 0 <= i < |ops| :: !ops[i].Reserve?
    requires Allocations(ops) <= k
    ensures k - Allocations(ops) < |Run(cfg, st, ops).free|
    ensures Run(cfg, st, ops).free[k - Allocations(ops)] == st.free[k]
    decreases |ops|
  {
    if ops != [] {
      var op, st' := ops[0], Step(cfg, st, ops[0]).0;
      if op.AddRegion? {
        PushAllOrder(true, st.free, RegionPages(op.base, op.length));
        FifoOrder(cfg, st', ops[1..], k);
      } else if op.Free? {
        FifoOrder(cfg, st', ops[1..], k);
      } else {
        FifoOrder(cfg, st', ops[1..], k - 1);
      }
    }
  }

  // ----- regions

  /** The page at p lies wholly inside the byte range that starts at base. */
  predicate Inside(p: u64, base: u64, length: u64) {
    base <= p && p + PAGE_SIZE <= base + length
  }

  predicate Covered(p: u64, base: u64, length: u64) {
    p % PAGE_SIZE == 0 && RegionStart(base) <= p < RegionEnd(base, length)
  }

  /** The range does not wrap, or starts in the last page and wraps by less than a page. */
  predicate RegionFits(base: u64, length: u64) {
    if base <= LAST_PAGE then base + length < TWO64 else TWO64 <= base + length < TWO64 + PAGE_SIZE
  }

  /** The interval the code computes holds exactly the pages wholly inside the range, if and only if the range fits. */
  lemma RegionExactIff(base: u64, length: u64)
    ensures (forall p: u64 | p % PAGE_SIZE == 0 :: Covered(p, base, length) <==> Inside(p, base, length))
       <==> RegionFits(base, length)
  {
    AlignedRange(base);
    AlignedRange(Add64(base, length));
    IntervalExactIff(base, length, RegionStart(base), RegionEnd(base, length));
    assert forall p: u64 | p % PAGE_SIZE == 0 :: Covered(p, base, length) <==> RegionStart(base) <= p < RegionEnd(base, length);
  }

  /** An instance: reserving no bytes at the last address withdraws every free page below the last page of the address space. */
  lemma EmptyReservationTakesAll(cfg: Config, st: State)
    ensures var kept := Step(cfg, st, Reserve(TWO64 - 1, 0)).0.free;
            forall p: u64 :: p in kept <==> p in st.free && p >= LAST_PAGE
    ensures InsideOf(st.free, TWO64 - 1, 0) == {}
  {
    AlignedRange(TWO64 - 1);
    assert RegionStart(TWO64 - 1) == 0 && RegionEnd(TWO64 - 1, 0) == LAST_PAGE;
    OutsideIsFilter(st.free, 0, LAST_PAGE);
  }

  lemma IntervalExactIff(base: u64, length: u64, lo: u64, hi: u64)
    requires lo % PAGE_SIZE == 0 && if base <= LAST_PAGE then base <= lo < base + PAGE_SIZE else lo == 0
    requires hi % PAGE_SIZE == 0 && hi <= Add64(base, length) < hi + PAGE_SIZE
    ensures (forall p: u64 | p % PAGE_SIZE == 0 :: lo <= p < hi <==> Inside(p, base, length)) <==> RegionFits(base, length)
  {
    if !RegionFits(base, length) {
      if base <= LAST_PAGE {
        assert Inside(LAST_PAGE, base, length) && !(lo <= LAST_PAGE < hi);
      } else {
        assert !Inside(0, base, length) && lo <= 0 < hi;
      }
    }
  }

  /** The pages of s inside a byte range. */
  ghost function InsideOf(s: seq<u64>, base: u64, length: u64): set<u64> {
    set p | p in s && Inside(p, base, length)
  }

  lemma OutsideRemovesInside(s: seq<u64>, base: u64, length: u64)
    requires NoDup(s) && RegionFits(base, length) && forall p | p in s :: p % PAGE_SIZE == 0
    ensures var kept := Outside(s, RegionStart(base), RegionEnd(base, length));
            var gone := InsideOf(s, base, length);
            Elems(kept) == Elems(s) - gone && |kept| == |s| - |gone| && Elems(s) - Elems(kept) == gone
  {
    RegionExactIff(base, length);
    assert forall p: u64 | p in s :: Covered(p, base, length) <==> Inside(p, base, length);
    OutsideIsFilter(s, RegionStart(base), RegionEnd(base, length));
    CountRemoved(s, Outside(s, RegionStart(base), RegionEnd(base, length)), InsideOf(s, base, length));
  }

  /**
   * Reservation of a fitting range removes exactly the free pages wholly inside it and withdraws
   * them; the rest stay free, the total is unchanged, and the free count drops by the number removed.
   */
  lemma ReserveRemovesExactly(cfg: Config, st: State, base: u64, length: u64)
    requires Conserved(st) && RegionFits(base, length)
    requires forall p | p in st.free :: p % PAGE_SIZE == 0
    ensures var st', gone := Step(cfg, st, Reserve(base, length)).0, InsideOf(st.free, base, length);
            && Elems(st'.free) == Elems(st.free) - gone
            && |st'.free| == |st.free| - |gone|
            && st'.withdrawn == st.withdrawn + gone
            && st'.total == st.total && st'.held == st.held
  {
    hide RegionStart, RegionEnd, Outside, NoDup;
    OutsideRemovesInside(st.free, base, length);
  }

  lemma CountRemoved(s: seq<u64>, kept: seq<u64>, gone: set<u64>)
    requires NoDup(s) && NoDup(kept) && gone <= Elems(s) && Elems(kept) == Elems(s) - gone
    ensures |kept| == |s| - |gone| && Elems(s) - Elems(kept) == gone
  {
    ElemsCount(s);
    ElemsCount(kept);
    assert Elems(s) == Elems(kept) + gone;
  }

  /** The pages a reservation leaves free keep their order. */
  lemma ReserveKeepsOrder(cfg: Config, st: State, base: u64, length: u64, i: nat, j: nat) returns (a: nat, b: nat)
    requires i < j < |Step(cfg, st, Reserve(base, length)).0.free|
    ensures a < b < |st.free|
    ensures var kept := Step(cfg, st, Reserve(base, length)).0.free;
            st.free[a] == kept[i] && st.free[b] == kept[j]
  {
    a, b := OutsideKeepsOrder(st.free, RegionStart(base), RegionEnd(base, length), i, j);
  }

  // ----- boot

  /** One entry of the bootloader's memory map; usable stands for the type LIMINE_MEMMAP_USABLE. */
  datatype MapEntry = MapEntry(base: u64, length: u64, usable: bool)

  /** The region an entry contributes: clipped below MIN_PHYSICAL, or none. */
  function EntryRegion(e: MapEntry): Option<(u64, u64)> {
    var end := Add64(e.base, e.length);
    if !e.usable || end <= MIN_PHYSICAL then None
    else
      var start := if e.base < MIN_PHYSICAL then MIN_PHYSICAL else e.base;
      Some((start, Sub64(end, start)))
  }

  function EntryOps(e: MapEntry): seq<Op> {
    var r := EntryRegion(e);
    if r.Some? then [AddRegion(r.value.0, r.value.1)] else []
  }

  function BootOps(entries: seq<MapEntry>): seq<Op> {
    if entries == [] then [] else EntryOps(entries[0]) + BootOps(entries[1..])
  }

  const EMPTY: State := State([], 0, {}, {})

  /** The page lies wholly inside a usable entry, at or above MIN_PHYSICAL. */
  predicate Usable(e: MapEntry, p: u64) {
    e.usable && p % PAGE_SIZE == 0 && p >= MIN_PHYSICAL && Inside(p, e.base, e.length)
  }

  predicate EntryFits(e: MapEntry) {
    !e.usable ||
    if e.base <= LAST_PAGE then e.base + e.length < TWO64 else TWO64 <= e.base + e.length <= TWO64 + MIN_PHYSICAL
  }

  /** An entry contributes exactly its usable pages if and only if it fits. */
  lemma EntryExactIff(e: MapEntry)
    ensures (forall p: u64 :: p in AllAdded(EntryOps(e)) <==> Usable(e, p)) <==> EntryFits(e)
  {
    var r := EntryRegion(e);
    EntryAdds(e);
    if r.Some? {
      AlignedRange(r.value.0);
      AlignedRange(Add64(r.value.0, r.value.1));
      ClippedIntervalExactIff(e, RegionStart(r.value.0), RegionEnd(r.value.0, r.value.1));
    } else if !EntryFits(e) {
      assert Usable(e, LAST_PAGE);
    }
  }

  /** An instance: a usable entry that ends exactly at the top of the address space contributes nothing. */
  lemma TopEntryIsSkipped()
    ensures var e := MapEntry(LAST_PAGE, PAGE_SIZE, true);
            Usable(e, LAST_PAGE) && EntryOps(e) == [] && !EntryFits(e)
  {
  }

  /** The pages of an entry are the multiples in the interval of its region. */
  lemma EntryAdds(e: MapEntry)
    ensures forall p: u64 :: p in AllAdded(EntryOps(e)) <==>
      EntryRegion(e).Some? && Covered(p, EntryRegion(e).value.0, EntryRegion(e).value.1)
  {
    var r := EntryRegion(e);
    if r.Some? {
      var (base, length) := r.value;
      AlignedRange(base);
      PagesAreTheMultiples(RegionStart(base), RegionEnd(base, length));
      assert EntryOps(e)[1..] == [];
      assert AllAdded(EntryOps(e)) == Elems(RegionPages(base, length));
    }
  }

  lemma ClippedIntervalExactIff(e: MapEntry, lo: u64, hi: u64)
    requires EntryRegion(e).Some?
    requires var base := EntryRegion(e).value.0;
             lo % PAGE_SIZE == 0 && if base <= LAST_PAGE then base <= lo < base + PAGE_SIZE else lo == 0
    requires hi % PAGE_SIZE == 0 && hi <= Add64(EntryRegion(e).value.0, EntryRegion(e).value.1) < hi + PAGE_SIZE
    ensures (forall p: u64 :: p % PAGE_SIZE == 0 && lo <= p < hi <==> Usable(e, p)) <==> EntryFits(e)
  {
    if !EntryFits(e) {
      if e.base <= LAST_PAGE {
        assert Usable(e, LAST_PAGE) && !(lo <= LAST_PAGE < hi);
      } else {
        assert !Usable(e, 0) && lo <= 0 < hi;
      }
    }
  }

  predicate AnyUsable(entries: seq<MapEntry>, p: u64) {
    exists i | 0 <= i < |entries| :: Usable(entries[i], p)
  }

  /** The byte ranges of different usable entries do not overlap. */
  ghost predicate Disjoint(entries: seq<MapEntry>) {
    forall i, j | 0 <= i < j < |entries| && entries[i].usable && entries[j].usable ::
      entries[i].base + entries[i].length <= entries[j].base || entries[j].base + entries[j].length <= entries[i].base
  }

  ghost predicate AllFit(entries: seq<MapEntry>) {
    forall i | 0 <= i < |entries| :: EntryFits(entries[i])
  }

  /** The pages that an entry brings in. */
  ghost function Contributed(e: MapEntry): set<u64> {
    AllAdded(EntryOps(e))
  }

  ghost predicate AnyContributed(entries: seq<MapEntry>, p: u64) {
    exists i | 0 <= i < |entries| :: p in Contributed(entries[i])
  }

  /** No entry brings in the null page, and no page is brought in by two entries. */
  ghost predicate Bootable(entries: seq<MapEntry>) {
    && (forall i | 0 <= i < |entries| :: 0 !in Contributed(entries[i]))
    && forall i, j | 0 <= i < j < |entries| :: Contributed(entries[i]) !! Contributed(entries[j])
  }

  ghost predicate AllOutside(entries: seq<MapEntry>, pages: set<u64>) {
    forall i | 0 <= i < |entries| :: Contributed(entries[i]) !! pages
  }

  /**
   * Boot is a legal run of region additions if and only if no page is brought in twice and the null page
   * not at all; the free pages are then precisely those brought in, and their number is the total.
   */
  lemma BootIsLegalIff(cfg: Config, entries: seq<MapEntry>)
    ensures LegalRun(cfg, EMPTY, BootOps(entries)) <==> Bootable(entries)
    ensures Bootable(entries) ==>
      var st := Run(cfg, EMPTY, BootOps(entries));
      && (forall p: u64 :: p in st.free <==> AnyContributed(entries, p))
      && NoDup(st.free) && st.total == |st.free| && st.held == {} && st.withdrawn == {}
  {
    BootFrom(cfg, EMPTY, entries);
    assert AllOutside(entries, Elems(EMPTY.free));
    if Bootable(entries) {
      BooksBalance(Run(cfg, EMPTY, BootOps(entries)));
    }
  }

  /**
   * Boot is exact: from any memory map whose usable entries fit and do not overlap, the free pages
   * are precisely the aligned pages wholly inside a usable entry at or above MIN_PHYSICAL, each
   * listed once, and both counters equal their number.
   */
  lemma BootIsExact(cfg: Config, entries: seq<MapEntry>)
    requires AllFit(entries) && Disjoint(entries)
    ensures Bootable(entries)
    ensures var st := Run(cfg, EMPTY, BootOps(entries));
            && (forall p: u64 :: p in st.free <==> AnyUsable(entries, p))
            && NoDup(st.free) && st.total == |st.free| && st.held == {} && st.withdrawn == {}
  {
    hide EntryOps, AllAdded, Usable, Run, BootOps;
    FittingIsBootable(entries);
    BootIsLegalIff(cfg, entries);
  }

  lemma FittingIsBootable(entries: seq<MapEntry>)
    requires AllFit(entries) && Disjoint(entries)
    ensures Bootable(entries) && forall p: u64 :: AnyContributed(entries, p) <==> AnyUsable(entries, p)
  {
    forall i | 0 <= i < |entries|
      ensures forall p: u64 :: p in Contributed(entries[i]) <==> Usable(entries[i], p)
    {
      EntryExactIff(entries[i]);
    }
    hide EntryOps, AllAdded;
    forall i, j | 0 <= i < j < |entries|
      ensures Contributed(entries[i]) !! Contributed(entries[j])
    {
      UsableOnce(entries, i, j);
    }
  }

  /** No page belongs to two entries. */
  lemma UsableOnce(entries: seq<MapEntry>, i: nat, j: nat)
    requires Disjoint(entries) && i < j < |entries|
    ensures forall p: u64 :: !(Usable(entries[i], p) && Usable(entries[j], p))
  {
  }

  /** An instance: a map with the lowest 1036 KiB of memory gives the three pages from 1 MiB on, in order under FIFO. */
  lemma BootExample(cfg: Config)
    requires cfg.fifo
    ensures var st := Run(cfg, EMPTY, BootOps([MapEntry(0, 0x10_3000, true), MapEntry(0x20_0000, 0x1000, false)]));
            st.free == [0x10_0000, 0x10_1000, 0x10_2000] && st.total == 3
  {
    var e, e' := MapEntry(0, 0x10_3000, true), MapEntry(0x20_0000, 0x1000, false);
    ContributedPages(e);
    assert EntryRegion(e) == Some((0x10_0000, 0x3000)) && EntryOps(e') == [];
    BootOpsStep([e, e']);
    assert [e, e'][1..] == [e'];
    BootOpsStep([e']);
    assert [e'][1..] == [];
    assert BootOps([e, e']) == EntryOps(e) + [] + [];
    OneOp(cfg, EMPTY, BootOps([e, e']), AddRegion(0x10_0000, 0x3000));
    ThreePages();
    PushAllOrder(true, [], RegionPages(0x10_0000, 0x3000));
  }

  lemma ThreePages()
    ensures RegionPages(0x10_0000, 0x3000) == [0x10_0000, 0x10_1000, 0x10_2000]
  {
    hide AlignUp, AlignDown, BitAnd;
    AlignedRange(0x10_0000);
    AlignedRange(0x10_3000);
    assert RegionStart(0x10_0000) == 0x10_0000 && RegionEnd(0x10_0000, 0x3000) == 0x10_3000;
    hide RegionStart, RegionEnd;
    assert Pages(0x10_2000, 0x10_3000) == [0x10_2000] + Pages(0x10_3000, 0x10_3000);
    assert Pages(0x10_1000, 0x10_3000) == [0x10_1000] + Pages(0x10_2000, 0x10_3000);
  }

  lemma {:induction false} BootFrom(cfg: Config, st: State, entries: seq<MapEntry>)
    requires Conserved(st) && st.held == {} && st.withdrawn == {}
    ensures LegalRun(cfg, st, BootOps(entries)) <==> Bootable(entries) && AllOutside(entries, Elems(st.free))
    ensures LegalRun(cfg, st, BootOps(entries)) ==>
      var st' := Run(cfg, st, BootOps(entries));
      && Conserved(st') && st'.held == {} && st'.withdrawn == {}
      && forall p: u64 :: p in st'.free <==> p in st.free || AnyContributed(entries, p)
    decreases |entries|
  {
    hide *;
    if entries == [] {
      NothingToBoot(cfg, st, entries);
    } else {
      var e, rest := entries[0], entries[1..];
      var st1 := Run(cfg, st, EntryOps(e));
      BootOpsStep(entries);
      BootEntry(cfg, st, e);
      RunAppend(cfg, st, EntryOps(e), BootOps(rest));
      BootableStep(entries, Elems(st.free));
      if LegalRun(cfg, st, EntryOps(e)) {
        BootFrom(cfg, st1, rest);
        AnyOfRest(entries);
        ElemsGrown(st.free, st1.free, Contributed(e));
      }
    }
  }

  lemma NothingToBoot(cfg: Config, st: State, entries: seq<MapEntry>)
    requires entries == []
    ensures LegalRun(cfg, st, BootOps(entries)) && Run(cfg, st, BootOps(entries)) == st
    ensures Bootable(entries) && AllOutside(entries, Elems(st.free)) && forall p: u64 :: !AnyContributed(entries, p)
  {
  }

  lemma ElemsGrown(s: seq<u64>, t: seq<u64>, pages: set<u64>)
    requires forall p: u64 :: p in t <==> p in s || p in pages
    ensures Elems(t) == Elems(s) + pages
  {
  }

  lemma BootOpsStep(entries: seq<MapEntry>)
    requires entries != []
    ensures BootOps(entries) == EntryOps(entries[0]) + BootOps(entries[1..])
  {
  }

  lemma BootableStep(entries: seq<MapEntry>, pages: set<u64>)
    requires entries != []
    ensures Bootable(entries) && AllOutside(entries, pages) <==>
      && 0 !in Contributed(entries[0]) && Contributed(entries[0]) !! pages
      && Bootable(entries[1..]) && AllOutside(entries[1..], pages + Contributed(entries[0]))
  {
    hide EntryOps, AllAdded;
    var rest := entries[1..];
    assert forall i | 0 <= i < |rest| :: rest[i] == entries[i + 1];
    if Bootable(rest) && AllOutside(rest, pages + Contributed(entries[0])) &&
       0 !in Contributed(entries[0]) && Contributed(entries[0]) !! pages {
      forall i | 0 <= i < |entries|
        ensures Contributed(entries[i]) !! pages && 0 !in Contributed(entries[i])
        ensures i > 0 ==> Contributed(entries[0]) !! Contributed(entries[i])
      {
        if i > 0 {
          assert Contributed(rest[i - 1]) !! pages + Contributed(entries[0]);
        }
      }
      forall i, j | 0 <= i < j < |entries|
        ensures Contributed(entries[i]) !! Contributed(entries[j])
      {
        if i > 0 {
          assert Contributed(rest[i - 1]) !! Contributed(rest[j - 1]);
        }
      }
    }
  }

  lemma AnyOfRest(entries: seq<MapEntry>)
    requires entries != []
    ensures forall p: u64 :: AnyContributed(entries, p) <==>
      p in Contributed(entries[0]) || AnyContributed(entries[1..], p)
  {
    hide EntryOps, AllAdded;
    var rest := entries[1..];
    assert forall i | 0 <= i < |rest| :: rest[i] == entries[i + 1];
    forall p: u64 | AnyContributed(entries, p) && p !in Contributed(entries[0])
      ensures AnyContributed(rest, p)
    {
      var i :| 0 <= i < |entries| && p in Contributed(entries[i]);
      assert p in Contributed(rest[i - 1]);
    }
  }

  lemma BootEntry(cfg: Config, st: State, e: MapEntry)
    requires Conserved(st) && st.held == {} && st.withdrawn == {}
    ensures LegalRun(cfg, st, EntryOps(e)) <==> 0 !in Contributed(e) && Contributed(e) !! Elems(st.free)
    ensures LegalRun(cfg, st, EntryOps(e)) ==>
      var st' := Run(cfg, st, EntryOps(e));
      && Conserved(st') && st'.held == {} && st'.withdrawn == {}
      && forall p: u64 :: p in st'.free <==> p in st.free || p in Contributed(e)
  {
    if EntryRegion(e).Some? {
      var (base, length) := EntryRegion(e).value;
      ContributedPages(e);
      OneOp(cfg, st, EntryOps(e), AddRegion(base, length));
      hide *;
      AddToFresh(cfg, st, base, length);
    } else {
      NoRegion(cfg, st, e);
    }
  }

  lemma NoRegion(cfg: Config, st: State, e: MapEntry)
    requires EntryRegion(e).None?
    ensures EntryOps(e) == [] && Contributed(e) == {} && LegalRun(cfg, st, EntryOps(e)) && Run(cfg, st, EntryOps(e)) == st
  {
  }

  lemma AddToFresh(cfg: Config, st: State, base: u64, length: u64)
    requires Conserved(st) && st.held == {} && st.withdrawn == {}
    ensures Legal(cfg, st, AddRegion(base, length)) <==>
      0 !in Elems(RegionPages(base, length)) && Elems(RegionPages(base, length)) !! Elems(st.free)
    ensures Legal(cfg, st, AddRegion(base, length)) ==>
      var st' := Step(cfg, st, AddRegion(base, length)).0;
      && Conserved(st') && st'.held == {} && st'.withdrawn == {}
      && forall p: u64 :: p in st'.free <==> p in st.free || p in Elems(RegionPages(base, length))
  {
    hide RegionPages;
    assert Universe(st) == Elems(st.free);
    if Legal(cfg, st, AddRegion(base, length)) {
      AddRegionConserves(cfg, st, base, length);
      var st' := Step(cfg, st, AddRegion(base, length)).0;
      hide Conserved, PushAll;
      assert Universe(st') == Elems(st'.free);
      assert forall p: u64 :: p in st'.free <==> p in Elems(st'.free);
    }
  }

  lemma ContributedPages(e: MapEntry)
    requires EntryRegion(e).Some?
    ensures var (base, length) := EntryRegion(e).value;
            EntryOps(e) == [AddRegion(base, length)] && Contributed(e) == Elems(RegionPages(base, length))
  {
    var (base, length) := EntryRegion(e).value;
    assert EntryOps(e)[1..] == [];
    hide RegionPages;
    assert AllAdded(EntryOps(e)) == Added(AddRegion(base, length)) + AllAdded([]);
  }

  lemma OneOp(cfg: Config, st: State, ops: seq<Op>, op: Op)
    requires ops == [op]
    ensures Run(cfg, st, ops) == Step(cfg, st, op).0
    ensures LegalRun(cfg, st, ops) <==> Legal(cfg, st, op)
  {
    assert ops[1..] == [];
  }
}
