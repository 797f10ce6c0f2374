/**
 * What the physical page allocator promises, as a state machine over the abstract free list.
 * A state also records which pages clients hold and which were withdrawn by reservations.
 */
module PageAllocatorSpec {
  import opened MachineWords
  import opened FreeList

  const MIN_PHYSICAL: u64 := 0x10_0000

  /** The last page-aligned address of the 64-bit space. */
  const LAST_PAGE: u64 := TWO64 - PAGE_SIZE

  datatype Option<+T> = None | Some(value: T)

  /** The compile-time policy switches and the bootloader's higher-half direct map, if it offers one. */
  datatype Config = Config(fifo: bool, zeroOnAlloc: bool, zeroOnFree: bool, panicOnError: bool, hhdm: Option<u64>) {
    function Offset(): u64 {
      if hhdm.Some? then hhdm.value else 0
    }

    /** The address at which a page is accessible, or null without a direct map. */
    function Virt(phys: u64): u64 {
      if hhdm.Some? then Add64(phys, hhdm.value) else 0
    }

    function Complaint(): Outcome {
      if panicOnError then Panic else Rejected
    }
  }

  datatype State = State(free: seq<u64>, total: nat, held: set<u64>, withdrawn: set<u64>)

  datatype Op =
    | AddRegion(base: u64, length: u64)
    | Allocate
    | TryAllocate
    | Free(phys: u64)
    | Reserve(base: u64, length: u64)

  datatype Outcome = Granted(phys: u64, virt: u64) | NoPage | Done | Rejected | Panic

  // ----- regions

  function RegionStart(base: u64): u64 {
    AlignedRange(base);
    AlignUp(base, PAGE_SIZE)
  }

  function RegionEnd(base: u64, length: u64): u64 {
    AlignedRange(Add64(base, length));
    AlignDown(Add64(base, length), PAGE_SIZE)
  }

  /** Page alignment in both directions, with the wrap-around of alignUp near the top. */
  lemma AlignedRange(a: u64)
    ensures var down := AlignDown(a, PAGE_SIZE); down % PAGE_SIZE == 0 && down <= a < down + PAGE_SIZE
    ensures var up := AlignUp(a, PAGE_SIZE);
            up % PAGE_SIZE == 0 && if a <= LAST_PAGE then a <= up < a + PAGE_SIZE else up == 0
  {
    PowersOfTwo();
    AlignDownIsFloor(a, 12);
    AlignUpIsCeiling(a, 12);
  }

  /** Masking with PAGE_SIZE - 1 is the offset within the page. */
  lemma PageMask(a: u64)
    ensures BitAnd(a, PAGE_SIZE - 1) == a % PAGE_SIZE
  {
    PowersOfTwo();
    LowMask(a, 12);
    LowBitsIsRemainder(a, 12);
  }

  /** The page addresses from lo up to hi, in increasing order. */
  function Pages(lo: nat, hi: nat): (ps: seq<u64>)
    requires hi <= TWO64
    decreases hi - lo
  {
    if lo >= hi then [] else [lo] + Pages(lo + PAGE_SIZE, hi)
  }

  function RegionPages(base: u64, length: u64): seq<u64> {
    Pages(RegionStart(base), RegionEnd(base, length))
  }

  lemma {:induction false} PagesAreTheMultiples(lo: nat, hi: nat)
    requires hi <= TWO64 && lo % PAGE_SIZE == 0
    ensures forall p: u64 :: p in Pages(lo, hi) <==> lo <= p < hi && p % PAGE_SIZE == 0
    ensures NoDup(Pages(lo, hi))
    decreases hi - lo
  {
    if lo < hi {
      PagesAreTheMultiples(lo + PAGE_SIZE, hi);
      NoDupCons(lo, Pages(lo + PAGE_SIZE, hi));
    }
  }

  // ----- list policies

  function Push(fifo: bool, s: seq<u64>, p: u64): seq<u64> {
    if fifo then s + [p] else [p] + s
  }

  function PushAll(fifo: bool, s: seq<u64>, ps: seq<u64>): seq<u64>
    decreases |ps|
  {
    if ps == [] then s else PushAll(fifo, Push(fifo, s, ps[0]), ps[1..])
  }

  /** The elements of s outside [lo, hi), in order. */
  function Outside(s: seq<u64>, lo: nat, hi: nat): seq<u64> {
    if s == [] then []
    else if lo <= s[0] < hi then Outside(s[1..], lo, hi)
    else [s[0]] + Outside(s[1..], lo, hi)
  }

  // ----- the machine

  function Step(cfg: Config, st: State, op: Op): (State, Outcome) {
    match op
    case AddRegion(base, length) =>
      var ps := RegionPages(base, length);
      (st.(free := PushAll(cfg.fifo, st.free, ps), total := st.total + |ps|), Done)
    case Allocate =>
      if st.free == [] then (st, Panic) else Grant(cfg, st)
    case TryAllocate =>
      if st.free == [] then (st, NoPage) else Grant(cfg, st)
    case Free(phys) =>
      var page := Add64(phys, cfg.Offset());
      if phys % PAGE_SIZE != 0 || page in st.free then (st, cfg.Complaint())
      else (st.(free := Push(cfg.fifo, st.free, page), held := st.held - {phys}), Done)
    case Reserve(base, length) =>
      (Withdraw(st, RegionStart(base), RegionEnd(base, length)), Done)
  }

  function Withdraw(st: State, lo: nat, hi: nat): State {
    var kept := Outside(st.free, lo, hi);
    st.(free := kept, withdrawn := st.withdrawn + (Elems(st.free) - Elems(kept)))
  }

  function Grant(cfg: Config, st: State): (State, Outcome)
    requires st.free != []
  {
    var page := st.free[0];
    (st.(free := st.free[1..], held := st.held + {page}), Granted(page, cfg.Virt(page)))
  }

  function Run(cfg: Config, st: State, ops: seq<Op>): State
    decreases |ops|
  {
    if ops == [] then st else Run(cfg, Step(cfg, st, ops[0]).0, ops[1..])
  }

  /** What the calls of a run report. */
  function Outcomes(cfg: Config, st: State, ops: seq<Op>): seq<Outcome>
    decreases |ops|
  {
    if ops == [] then [] else
      var (st', r) := Step(cfg, st, ops[0]);
      [r] + Outcomes(cfg, st', ops[1..])
  }

  // ----- calls interleaved with the clients' own writes

  datatype Event = Call(op: Op) | Write(addr: nat, b: byte)

  function Calls(events: seq<Event>): seq<Op> {
    if events == [] then [] else (if events[0].Call? then [events[0].op] else []) + Calls(events[1..])
  }

  /** The memory after the clients' writes alone. */
  function Applied(m: seq<byte>, events: seq<Event>): (r: seq<byte>)
    ensures |r| == |m|
    decreases |events|
  {
    if events == [] then m
    else if events[0].Write? && events[0].addr < |m| then Applied(m[events[0].addr := events[0].b], events[1..])
    else Applied(m, events[1..])
  }

  /** A byte keeps its value if no event writes to it, and otherwise has the value of the last write to it. */
  lemma {:induction false} AppliedIsLastWrite(m: seq<byte>, events: seq<Event>, j: nat, i: nat)
    requires j < |m| && i <= |events| && (i < |events| ==> events[i].Write? && events[i].addr == j)
    requires forall k | i < k < |events| :: !(events[k].Write? && events[k].addr == j)
    requires i == |events| ==> forall k | 0 <= k < |events| :: !(events[k].Write? && events[k].addr == j)
    ensures Applied(m, events)[j] == if i < |events| then events[i].b else m[j]
    decreases |events|
  {
    if events != [] {
      var m', rest := m, events[1..];
      if events[0].Write? && events[0].addr < |m| {
        m' := m[events[0].addr := events[0].b];
      }
      assert forall k | 0 <= k < |rest| :: rest[k] == events[k + 1];
      AppliedIsLastWrite(m', rest, j, if i == 0 then |rest| else i - 1);
    }
  }

  /** An event that is a call counts as that call, a write as none. */
  lemma CallsOfEvent(e: Event)
    ensures Calls([e]) == match e case Call(op) => [op] case Write(_, _) => []
  {
    assert [e][1..] == [];
  }

  /** The calls are those of the events, in order. */
  lemma {:induction false} CallsInOrder(xs: seq<Event>, ys: seq<Event>)
    ensures Calls(xs + ys) == Calls(xs) + Calls(ys)
    decreases |xs|
  {
    if xs == [] {
      assert xs + ys == ys;
    } else {
      CallsInOrder(xs[1..], ys);
      CallsStep(xs);
      CallsStep(xs + ys);
      assert (xs + ys)[1..] == xs[1..] + ys;
      hide Calls;
      assert Calls([xs[0]]) + (Calls(xs[1..]) + Calls(ys)) == (Calls([xs[0]]) + Calls(xs[1..])) + Calls(ys);
    }
  }

  lemma CallsStep(xs: seq<Event>)
    requires xs != []
    ensures Calls(xs) == Calls([xs[0]]) + Calls(xs[1..])
  {
    CallsOfEvent(xs[0]);
  }

  /** Clients write in memory, and never to a page that is free at that moment. */
  predicate WritesAllowed(cfg: Config, st: State, events: seq<Event>, limit: nat)
    decreases |events|
  {
    events == [] ||
    match events[0]
    case Call(op) => WritesAllowed(cfg, Step(cfg, st, op).0, events[1..], limit)
    case Write(addr, _) =>
      && addr < limit && PageOf(addr) !in Homes(cfg.Offset(), st.free)
      && WritesAllowed(cfg, st, events[1..], limit)
  }

  /**
   * A call of a client that need not hold what it frees: a page whose free is accepted lies in memory, has
   * a non-null address and is not listed under its unmapped address.
   */
  predicate Linkable(cfg: Config, st: State, op: Op, limit: nat) {
    && !op.AddRegion?
    && (op.Free? && !Refused(cfg, st, op.phys) ==>
          InMemory(op.phys, limit) && Add64(op.phys, cfg.Offset()) != 0 && op.phys !in st.free)
  }

  predicate AllLinkable(cfg: Config, st: State, ops: seq<Op>, limit: nat)
    decreases |ops|
  {
    ops == [] || (Linkable(cfg, st, ops[0], limit) && AllLinkable(cfg, Step(cfg, st, ops[0]).0, ops[1..], limit))
  }

  predicate NoRegions(ops: seq<Op>) {
    forall i | 0 <= i < |ops| :: !ops[i].AddRegion?
  }

  /** No call of the run frees the page. */
  predicate NeverFreed(ops: seq<Op>, page: nat) {
    forall i | 0 <= i < |ops| && ops[i].Free? :: ops[i].phys != page
  }

  /** Without a direct map it is enough that every aligned page that is freed is a frame. */
  lemma {:induction false} FramesAreLinkable(cfg: Config, st: State, ops: seq<Op>, limit: nat)
    requires cfg.Offset() == 0 && NoRegions(ops)
    requires forall i | 0 <= i < |ops| && ops[i].Free? && ops[i].phys % PAGE_SIZE == 0 :: Frame(ops[i].phys, limit)
    ensures AllLinkable(cfg, st, ops, limit)
    decreases |ops|
  {
    if ops != [] {
      assert forall i | 0 < i < |ops| :: ops[i] == ops[1..][i - 1];
      FramesAreLinkable(cfg, Step(cfg, st, ops[0]).0, ops[1..], limit);
    }
  }

  // ----- ownership

  ghost function Universe(st: State): set<u64> {
    Elems(st.free) + st.held + st.withdrawn
  }

  /** Free, held and withdrawn pages never overlap, their number is the total, and the null page is none of them. */
  ghost predicate Conserved(st: State) {
    && NoDup(st.free) && 0 !in Universe(st)
    && Elems(st.free) !! st.held && Elems(st.free) !! st.withdrawn && st.held !! st.withdrawn
    && |Universe(st)| == st.total
  }

  predicate Refused(cfg: Config, st: State, phys: u64) {
    phys % PAGE_SIZE != 0 || Add64(phys, cfg.Offset()) in st.free
  }

  /**
   * Clients free only what they hold (or the call is refused), and new regions are really new and do not
   * contain the null page.
   */
  ghost predicate Legal(cfg: Config, st: State, op: Op) {
    match op
    case AddRegion(base, length) => 0 !in RegionPages(base, length) && Elems(RegionPages(base, length)) !! Universe(st)
    case Free(phys) => phys in st.held || Refused(cfg, st, phys)
    case _ => true
  }

  ghost predicate LegalRun(cfg: Config, st: State, ops: seq<Op>)
    decreases |ops|
  {
    ops == [] || (Legal(cfg, st, ops[0]) && LegalRun(cfg, Step(cfg, st, ops[0]).0, ops[1..]))
  }

  /** The pages an operation brings into the allocator. */
  ghost function Added(op: Op): set<u64> {
    if op.AddRegion? then Elems(RegionPages(op.base, op.length)) else {}
  }

  ghost function AllAdded(ops: seq<Op>): set<u64> {
    if ops == [] then {} else Added(ops[0]) + AllAdded(ops[1..])
  }

  // ----- facts about the list policies

  lemma {:induction false} ElemsCount(s: seq<u64>)
    requires NoDup(s)
    ensures |Elems(s)| == |s|
  {
    if s != [] {
      ElemsCount(s[1..]);
      assert Elems(s) == {s[0]} + Elems(s[1..]);
    }
  }

  lemma ElemsPush(fifo: bool, s: seq<u64>, p: u64)
    ensures Elems(Push(fifo, s, p)) == Elems(s) + {p}
    ensures NoDup(s) && p !in s ==> NoDup(Push(fifo, s, p))
  {
  }

  lemma {:induction false} ElemsPushAll(fifo: bool, s: seq<u64>, ps: seq<u64>)
    ensures Elems(PushAll(fifo, s, ps)) == Elems(s) + Elems(ps)
    ensures |PushAll(fifo, s, ps)| == |s| + |ps|
    ensures NoDup(s) && NoDup(ps) && Elems(s) !! Elems(ps) ==> NoDup(PushAll(fifo, s, ps))
    decreases |ps|
  {
    if ps != [] {
      var s', rest := Push(fifo, s, ps[0]), ps[1..];
      ElemsPush(fifo, s, ps[0]);
      ElemsPushAll(fifo, s', rest);
      assert Elems(ps) == {ps[0]} + Elems(rest);
      if NoDup(ps) {
        assert ps[0] !in Elems(rest);
      }
    }
  }

  /** A region's pages enter a FIFO list in increasing order at the back, a LIFO list in decreasing order in front. */
  lemma {:induction false} PushAllOrder(fifo: bool, s: seq<u64>, ps: seq<u64>)
    ensures PushAll(fifo, s, ps) == if fifo then s + ps else seq(|ps|, i requires 0 <= i < |ps| => ps[|ps| - 1 - i]) + s
    decreases |ps|
  {
    if ps != [] {
      PushAllOrder(fifo, Push(fifo, s, ps[0]), ps[1..]);
    }
  }

  lemma {:induction false} OutsideIsFilter(s: seq<u64>, lo: nat, hi: nat)
    ensures forall p: u64 :: p in Outside(s, lo, hi) <==> p in s && !(lo <= p < hi)
    ensures |Outside(s, lo, hi)| <= |s|
    ensures NoDup(s) ==> NoDup(Outside(s, lo, hi))
  {
    if s != [] {
      OutsideIsFilter(s[1..], lo, hi);
      if NoDup(s) {
        assert NoDup(s[1..]) && s[0] !in s[1..];
        NoDupCons(s[0], Outside(s[1..], lo, hi));
      }
    }
  }

  /** Filtering keeps the order: two kept pages come from two positions in the same order. */
  lemma {:induction false} OutsideKeepsOrder(s: seq<u64>, lo: nat, hi: nat, i: nat, j: nat) returns (a: nat, b: nat)
    requires i < j < |Outside(s, lo, hi)|
    ensures a < b < |s| && s[a] == Outside(s, lo, hi)[i] && s[b] == Outside(s, lo, hi)[j]
  {
    if lo <= s[0] < hi {
      a, b := OutsideKeepsOrder(s[1..], lo, hi, i, j);
      a, b := a + 1, b + 1;
    } else if i > 0 {
      a, b := OutsideKeepsOrder(s[1..], lo, hi, i - 1, j - 1);
      a, b := a + 1, b + 1;
    } else {
      a := 0;
      OutsideIsFilter(s[1..], lo, hi);
      assert Outside(s, lo, hi)[j] == Outside(s[1..], lo, hi)[j - 1];
      assert Outside(s, lo, hi)[j] in s[1..];
      b :| 0 < b < |s| && s[b] == Outside(s, lo, hi)[j];
    }
  }
}
