/**
 * The physical page allocator itself: a free list threaded through the free pages of a byte memory, in which
 * an address of the direct map names the same byte as the physical address.
 */
module PageAllocator {
  import opened MachineWords
  import opened RawMemory
  import opened FreeList
  import opened PageAllocatorSpec
  import opened FreeStores
  import opened PageAllocatorTheorems

  // ----- one step of a reservation

  lemma NothingWithdrawn(w: set<u64>, s: seq<u64>)
    ensures w + (Elems(s) - Elems(s)) == w
  {
  }

  lemma OutsideShrinks(s: seq<u64>, lo: nat, hi: nat)
    ensures Elems(Outside(s, lo, hi)) <= Elems(s)
  {
    OutsideIsFilter(s, lo, hi);
  }

  lemma {:induction false} OutsideEmptyRange(s: seq<u64>, lo: nat, hi: nat)
    requires lo >= hi
    ensures Outside(s, lo, hi) == s
  {
    if s != [] {
      OutsideEmptyRange(s[1..], lo, hi);
    }
  }

  /** Dropping the k-th element when it is the page being filtered out changes no filtered result. */
  lemma FilterDrops(s: seq<u64>, addr: u64, k: nat)
    requires k < |s| && s[k] == addr
    ensures var s' := s[..k] + s[k + 1..];
            && s'[..k] + Outside(s'[k..], addr, addr + 1) == s[..k] + Outside(s[k..], addr, addr + 1)
            && Elems(s') <= Elems(s)
  {
    var s' := s[..k] + s[k + 1..];
    assert s'[..k] == s[..k] && s'[k..] == s[k..][1..];
  }

  lemma FilterDone(s: seq<u64>, addr: u64)
    ensures s[..|s|] + Outside(s[|s|..], addr, addr + 1) == s
  {
  }

  lemma FilterKeeps(s: seq<u64>, addr: u64, k: nat)
    requires k < |s| && s[k] != addr
    ensures s[..k + 1] + Outside(s[k + 1..], addr, addr + 1) == s[..k] + Outside(s[k..], addr, addr + 1)
  {
    assert s[k..][1..] == s[k + 1..];
    assert s[..k + 1] == s[..k] + [s[k]];
  }

  /** Filtering out one more page extends the filtered interval by a whole page. */
  lemma {:induction false} OutsideNextPage(s: seq<u64>, lo: u64, a: u64)
    requires lo <= a && a % PAGE_SIZE == 0 && forall i | 0 <= i < |s| :: s[i] % PAGE_SIZE == 0
    ensures Outside(Outside(s, lo, a), a, a + 1) == Outside(s, lo, a + PAGE_SIZE)
  {
    if s != [] {
      OutsideNextPage(s[1..], lo, a);
    }
  }

  lemma NodesAreAligned(off: u64, s: seq<u64>, limit: nat)
    requires Nodes(off, s, limit) && MapFits(off, limit)
    ensures forall i | 0 <= i < |s| :: s[i] % PAGE_SIZE == 0
  {
    forall i | 0 <= i < |s|
      ensures s[i] % PAGE_SIZE == 0
    {
      AlignedHome(off, s[i]);
    }
  }

  lemma AlignedHome(off: u64, a: u64)
    requires off % PAGE_SIZE == 0 && Home(off, a) % PAGE_SIZE == 0
    ensures a % PAGE_SIZE == 0
  {
  }

  lemma NextPage(addr: u64, end: u64)
    requires addr < end && addr % PAGE_SIZE == 0 && end % PAGE_SIZE == 0
    ensures addr + PAGE_SIZE <= end && (addr + PAGE_SIZE) % PAGE_SIZE == 0
  {
  }

  lemma HomesShrink(off: u64, s: seq<u64>, t: seq<u64>)
    requires Elems(s) <= Elems(t)
    ensures Homes(off, s) <= Homes(off, t)
  {
    assert forall p | p in s :: p in Elems(s);
    assert forall p | p in Elems(t) :: p in t;
  }

  // ----- one step of a region's or the memory map's loop

  /** What one pushed page does to the pages still to be pushed. */
  lemma AddStep(off: u64, fifo: bool, s: seq<u64>, addr: u64, end: u64, limit: nat)
    requires addr < end && addr % PAGE_SIZE == 0 && end % PAGE_SIZE == 0 && MapFits(off, limit)
    requires forall p | p in Pages(addr, end) :: Frame(p, limit) && p !in Homes(off, s)
    ensures Frame(addr, limit) && addr !in Homes(off, s) && addr + PAGE_SIZE <= end
    ensures |Pages(addr, end)| == 1 + |Pages(addr + PAGE_SIZE, end)|
    ensures var s', rest := Push(fifo, s, addr), Pages(addr + PAGE_SIZE, end);
            && (forall p | p in rest :: Frame(p, limit) && p !in Homes(off, s'))
            && PushAll(fifo, s, Pages(addr, end)) == PushAll(fifo, s', rest)
            && Homes(off, s) <= Homes(off, s')
  {
    PagesStep(addr, end);
    HomesPush(off, s, addr);
    assert Home(off, addr) == addr;
    hide Pages, Homes, Home;
  }

  lemma PagesStep(addr: u64, end: u64)
    requires addr < end && addr % PAGE_SIZE == 0 && end % PAGE_SIZE == 0
    ensures addr + PAGE_SIZE <= end
    ensures Pages(addr, end) == [addr] + Pages(addr + PAGE_SIZE, end)
    ensures Pages(addr, end)[1..] == Pages(addr + PAGE_SIZE, end)
    ensures addr in Pages(addr, end) && addr !in Pages(addr + PAGE_SIZE, end)
    ensures forall p | p in Pages(addr + PAGE_SIZE, end) :: p in Pages(addr, end)
  {
    PagesAreTheMultiples(addr + PAGE_SIZE, end);
    assert addr == Pages(addr, end)[0];
  }

  /** Adding a legal region of real memory keeps the books balanced and the counters within 64 bits. */
  lemma RegionFitsMemory(cfg: Config, st: State, base: u64, length: u64, limit: nat)
    requires limit <= TWO64 && Conserved(st) && forall p | p in Universe(st) :: Frame(p, limit)
    requires Legal(cfg, st, Op.AddRegion(base, length))
    requires forall p | p in RegionPages(base, length) :: Frame(p, limit)
    ensures var final := Step(cfg, st, Op.AddRegion(base, length)).0;
            Conserved(final) && (forall p | p in Universe(final) :: Frame(p, limit)) && final.total < TWO64
    ensures MapFits(cfg.Offset(), limit) ==>
      forall p | p in RegionPages(base, length) :: p !in Homes(cfg.Offset(), st.free)
  {
    AddRegionConserves(cfg, st, base, length);
    var final := Step(cfg, st, Op.AddRegion(base, length)).0;
    FrameCount(Universe(final), limit);
    if MapFits(cfg.Offset(), limit) {
      NewPagesElsewhere(cfg.Offset(), st, RegionPages(base, length), limit);
    }
  }

  lemma NewPagesElsewhere(off: u64, st: State, ps: seq<u64>, limit: nat)
    requires MapFits(off, limit) && (forall p | p in Universe(st) :: Frame(p, limit)) && Elems(ps) !! Universe(st)
    ensures forall p | p in ps :: p !in Homes(off, st.free)
  {
    assert forall p | p in st.free :: p in Universe(st);
    FramesAreNodes(off, st.free, limit);
    assert forall p | p in ps :: p in Elems(ps);
  }

  lemma BootStep(cfg: Config, st: State, entries: seq<MapEntry>, i: nat)
    requires i < |entries| && LegalRun(cfg, st, BootOps(entries[i..]))
    ensures LegalRun(cfg, st, EntryOps(entries[i]))
    ensures var st' := Run(cfg, st, EntryOps(entries[i]));
            && LegalRun(cfg, st', BootOps(entries[i + 1..]))
            && Run(cfg, st', BootOps(entries[i + 1..])) == Run(cfg, st, BootOps(entries[i..]))
  {
    assert entries[i..][1..] == entries[i + 1..];
    RunAppend(cfg, st, EntryOps(entries[i]), BootOps(entries[i + 1..]));
  }

  lemma NothingLeft(cfg: Config, st: State, entries: seq<MapEntry>)
    ensures Run(cfg, st, BootOps(entries[|entries|..])) == st
  {
  }

  // ----- one step of a run

  /** The memories agree on the given bytes. */
  ghost predicate SameAt(m: seq<byte>, m': seq<byte>, bytes: set<nat>) {
    |m'| == |m| && forall j | 0 <= j < |m| && j in bytes :: m'[j] == m[j]
  }

  /** None of the bytes is in a free page, and no call of the run frees one of their pages. */
  ghost predicate Untouched(cfg: Config, st: State, ops: seq<Op>, bytes: set<nat>) {
    forall j | j in bytes :: PageOf(j) !in Homes(cfg.Offset(), st.free) && NeverFreed(ops, PageOf(j))
  }

  lemma EventsDone(cfg: Config, st: State, m: seq<byte>, target: seq<byte>, bytes: set<nat>)
    requires SameAt(target, Applied(m, []), bytes)
    ensures Run(cfg, st, Calls([])) == st && Outcomes(cfg, st, Calls([])) == []
    ensures |m| == |target| && forall j | 0 <= j < |m| && j in bytes :: m[j] == target[j]
  {
  }

  /** In a legal run every free that is accepted is of one of the allocator's frames. */
  lemma {:induction false} LegalRunLinkable(cfg: Config, st: State, ops: seq<Op>, limit: nat)
    requires cfg.Offset() == 0 && Conserved(st) && (forall p | p in Universe(st) :: Frame(p, limit))
    requires LegalRun(cfg, st, ops) && NoRegions(ops)
    ensures AllLinkable(cfg, st, ops, limit)
    decreases |ops|
  {
    hide Step, Conserved, Universe, Linkable, Frame;
    if ops != [] {
      LegalStepLinkable(cfg, st, ops[0], limit);
      LegalRunLinkable(cfg, Step(cfg, st, ops[0]).0, ops[1..], limit);
    }
  }

  lemma LegalStepLinkable(cfg: Config, st: State, op: Op, limit: nat)
    requires cfg.Offset() == 0 && Conserved(st) && (forall p | p in Universe(st) :: Frame(p, limit))
    requires Legal(cfg, st, op) && !op.AddRegion?
    ensures Linkable(cfg, st, op, limit)
    ensures Conserved(Step(cfg, st, op).0) && forall p | p in Universe(Step(cfg, st, op).0) :: Frame(p, limit)
  {
    LegalStepConserves(cfg, st, op);
    hide Step, Conserved;
    if op.Free? && op.phys in st.held {
      assert op.phys in Universe(st);
    }
  }

  lemma {:induction false} NoRegionsAddNothing(ops: seq<Op>, pages: set<u64>)
    requires NoRegions(ops)
    ensures pages + AllAdded(ops) == pages
  {
    if ops != [] {
      NoRegionsAddNothing(ops[1..], pages);
    }
  }

  lemma HeldIsNotFree(st: State)
    requires Conserved(st)
    ensures forall p | p in st.held :: p !in Homes(0, st.free)
  {
    assert Homes(0, st.free) == Elems(st.free);
  }

  lemma KeptBytes(cfg: Config, st: State, ops: seq<Op>, m: seq<byte>, bytes: set<nat>)
    requires forall j | j in bytes :: PageOf(j) !in Homes(cfg.Offset(), st.free) && NeverFreed(ops, PageOf(j))
    ensures Untouched(cfg, st, ops, bytes) && SameAt(m, m, bytes)
  {
  }

  lemma NextCall(cfg: Config, st: State, rest: seq<Event>, limit: nat)
    requires rest != [] && rest[0].Call?
    requires WritesAllowed(cfg, st, rest, limit) && AllLinkable(cfg, st, Calls(rest), limit)
    ensures Linkable(cfg, st, rest[0].op, limit)
    ensures var (st', r) := Step(cfg, st, rest[0].op);
            && WritesAllowed(cfg, st', rest[1..], limit) && AllLinkable(cfg, st', Calls(rest[1..]), limit)
            && Run(cfg, st', Calls(rest[1..])) == Run(cfg, st, Calls(rest))
            && [r] + Outcomes(cfg, st', Calls(rest[1..])) == Outcomes(cfg, st, Calls(rest))
    ensures forall m: seq<byte> :: Applied(m, rest[1..]) == Applied(m, rest)
  {
    hide Step, Linkable;
    assert Calls(rest)[0] == rest[0].op && Calls(rest)[1..] == Calls(rest[1..]);
  }

  /** A page that is neither free nor freed stays out of the list. */
  lemma CallStaysOut(cfg: Config, st: State, rest: seq<Event>, bytes: set<nat>, limit: nat)
    requires rest != [] && rest[0].Call? && Linkable(cfg, st, rest[0].op, limit) && MapFits(cfg.Offset(), limit)
    requires Untouched(cfg, st, Calls(rest), bytes)
    ensures Untouched(cfg, Step(cfg, st, rest[0].op).0, Calls(rest[1..]), bytes)
  {
    var op, ops := rest[0].op, Calls(rest);
    assert ops[0] == op && ops[1..] == Calls(rest[1..]);
    hide Linkable, Step, Homes;
    forall j | j in bytes
      ensures PageOf(j) !in Homes(cfg.Offset(), Step(cfg, st, op).0.free) && NeverFreed(ops[1..], PageOf(j))
    {
      StepStaysOut(cfg, st, op, PageOf(j), limit);
    }
  }

  lemma StepStaysOut(cfg: Config, st: State, op: Op, page: nat, limit: nat)
    requires page !in Homes(cfg.Offset(), st.free) && MapFits(cfg.Offset(), limit)
    requires Linkable(cfg, st, op, limit) && (op.Free? ==> op.phys != page)
    ensures page !in Homes(cfg.Offset(), Step(cfg, st, op).0.free)
  {
    var off := cfg.Offset();
    match op
    case Free(phys) =>
      HomesPush(off, st.free, Add64(phys, off));
      assert InMemory(phys, limit) ==> Home(off, Add64(phys, off)) == phys;
    case Reserve(base, length) =>
      OutsideIsFilter(st.free, RegionStart(base), RegionEnd(base, length));
    case _ =>
  }

  lemma CallKeepsBytes(cfg: Config, st: State, st': State, m: seq<byte>, m': seq<byte>, rest: seq<Event>, bytes: set<nat>)
    requires rest != [] && ChangedOnlyIn(m, m', Homes(cfg.Offset(), st.free) + Homes(cfg.Offset(), st'.free))
    requires Untouched(cfg, st, Calls(rest), bytes) && Untouched(cfg, st', Calls(rest[1..]), bytes)
    ensures SameAt(Applied(m, rest[1..]), Applied(m', rest[1..]), bytes)
  {
    ChangedElsewhere(m, m', Homes(cfg.Offset(), st.free) + Homes(cfg.Offset(), st'.free), bytes);
    AppliedSame(m, m', rest[1..], bytes);
  }

  lemma {:induction false} AppliedSame(m: seq<byte>, m': seq<byte>, events: seq<Event>, bytes: set<nat>)
    requires SameAt(m, m', bytes)
    ensures SameAt(Applied(m, events), Applied(m', events), bytes)
    decreases |events|
  {
    if events != [] {
      if events[0].Write? && events[0].addr < |m| {
        AppliedSame(m[events[0].addr := events[0].b], m'[events[0].addr := events[0].b], events[1..], bytes);
      } else {
        AppliedSame(m, m', events[1..], bytes);
      }
    }
  }

  lemma NextWrite(cfg: Config, st: State, m: seq<byte>, rest: seq<Event>)
    requires rest != [] && rest[0].Write? && WritesAllowed(cfg, st, rest, |m|)
    ensures rest[0].addr < |m| && PageOf(rest[0].addr) !in Homes(cfg.Offset(), st.free)
    ensures WritesAllowed(cfg, st, rest[1..], |m|)
    ensures Calls(rest) == Calls(rest[1..]) && Applied(m, rest) == Applied(m[rest[0].addr := rest[0].b], rest[1..])
  {
  }

  lemma SameAtTrans(m: seq<byte>, m1: seq<byte>, m2: seq<byte>, bytes: set<nat>)
    requires SameAt(m, m1, bytes) && SameAt(m1, m2, bytes)
    ensures SameAt(m, m2, bytes)
  {
  }

  /** Changes inside pages that hold none of the bytes. */
  lemma ChangedElsewhere(m: seq<byte>, m': seq<byte>, pages: set<u64>, bytes: set<nat>)
    requires ChangedOnlyIn(m, m', pages) && forall j | j in bytes :: PageOf(j) !in pages
    ensures SameAt(m, m', bytes)
  {
  }

  lemma PushedHomes(off: u64, fifo: bool, f: Fields, s: seq<u64>, page: u64)
    requires Represents(off, fifo, f, s) && Home(off, page) == page
    ensures page in Homes(off, Push(fifo, s, page))
    ensures fifo && f.tail != 0 ==> Home(off, f.tail) in Homes(off, Push(fifo, s, page))
  {
    HomesPush(off, s, page);
    if s != [] {
      InHomes(off, s, |s| - 1);
    }
  }

  lemma NoPagesLeft(fifo: bool, s: seq<u64>, lo: nat, hi: nat)
    requires lo >= hi && hi <= TWO64
    ensures Pages(lo, hi) == [] && PushAll(fifo, s, Pages(lo, hi)) == s
  {
  }

  /** An allocation touches at most the page it grants, which was free. */
  lemma GrantedChanges(off: u64, s: seq<u64>, m: seq<byte>, m': seq<byte>, others: set<u64>, r: Outcome, zeroed: bool)
    requires r.Granted? ==> InMemory(Home(off, r.phys), |m|) && r.phys in s
    requires m' == if r.Granted? && zeroed then Zeroed(m, Home(off, r.phys)) else m
    ensures ChangedOnlyIn(m, m', Homes(off, s) + others)
  {
    if r.Granted? {
      ZeroingStaysInPage(m, Home(off, r.phys));
    }
  }

  // ----- what zeroing leaves alone

  lemma FirstIsElsewhere(off: u64, s: seq<u64>)
    requires s != [] && Apart(off, s)
    ensures Elsewhere(off, s[1..], s[0])
  {
  }

  lemma ZeroedElsewhere(off: u64, m: seq<byte>, page: u64, head: u64, s: seq<u64>)
    requires Linked(off, m, head, s) && InMemory(Home(off, page), |m|) && Elsewhere(off, s, page)
    ensures Linked(off, Zeroed(m, Home(off, page)), head, s)
  {
    hide Zeroed, Linked, Elsewhere;
    ZeroingStaysInPage(m, Home(off, page));
    ChangesElsewhere(off, m, Zeroed(m, Home(off, page)), page, s);
    WritesElsewhereKeepList(off, m, Zeroed(m, Home(off, page)), head, s);
  }

  /** Everything the machine says of a free, and how the code tests for it. */
  lemma FreeFacts(cfg: Config, st: State, phys: u64, limit: nat)
    ensures var page := Add64(phys, cfg.Offset());
            && page == (phys + cfg.Offset()) % TWO64
            && (BitAnd(phys, PAGE_SIZE - 1) != 0 <==> phys % 4096 != 0)
            && (Refused(cfg, st, phys) <==> phys % 4096 != 0 || page in st.free)
            && cfg.Complaint() == (if cfg.panicOnError then Panic else Rejected)
            && (Linkable(cfg, st, Op.Free(phys), limit) <==>
                  Refused(cfg, st, phys) || (InMemory(phys, limit) && page != 0 && phys !in st.free))
            && Step(cfg, st, Op.Free(phys)) ==
                 if Refused(cfg, st, phys) then (st, cfg.Complaint())
                 else (st.(free := Push(cfg.fifo, st.free, page), held := st.held - {phys}), Done)
  {
    PageMask(phys);
    hide Push, InMemory;
  }

  class PhysicalMemoryManager {
    const cfg: Config
    const ram: array<byte>
    var head: u64
    var tail: u64
    var totalPages: u64
    var freePages: u64

    /** The abstract state that the pointers and counters represent. */
    ghost var st: State

    ghost function Pointers(): Fields
      reads this, ram
    {
      Fields(ram[..], head, tail)
    }

    /** The pointers from head spell out st.free, and the counters count it. */
    ghost predicate Structure()
      reads this, ram
    {
      && ram.Length <= TWO64 && MapFits(cfg.Offset(), ram.Length)
      && Linked(cfg.Offset(), ram[..], head, st.free)
      && freePages == |st.free|
      && totalPages == st.total
    }

    /** Under the FIFO policy the tail is the last node; under LIFO it may be stale and is never followed. */
    ghost predicate Valid()
      reads this, ram
    {
      Structure() && (cfg.fifo ==> tail == LastOrNull(st.free))
    }

    /** Every page is a frame of this memory, and the books are balanced. */
    ghost predicate Owned()
      reads this
    {
      Conserved(st) && forall p | p in Universe(st) :: Frame(p, ram.Length)
    }

    constructor (cfg: Config, ram: array<byte>)
      requires ram.Length <= TWO64 && MapFits(cfg.Offset(), ram.Length)
      ensures Valid() && Owned() && st == EMPTY && this.cfg == cfg && this.ram == ram
    {
      this.cfg, this.ram := cfg, ram;
      head, tail, totalPages, freePages := 0, 0, 0, 0;
      st := EMPTY;
    }

    // ----- memory as addresses see it

    /** node->next */
    method LoadNext(node: u64) returns (next: u64)
      requires InMemory(Home(cfg.Offset(), node), ram.Length)
      ensures next == LoadPtr(ram[..], Home(cfg.Offset(), node))
    {
      next := ReadPtr(ram, Home(cfg.Offset(), node));
    }

    /** node->next = v */
    method StoreNext(node: u64, v: u64)
      requires InMemory(Home(cfg.Offset(), node), ram.Length)
      modifies ram
      ensures ram[..] == StorePtr(old(ram[..]), Home(cfg.Offset(), node), v)
    {
      WritePtr(ram, Home(cfg.Offset(), node), v);
    }

    method ZeroPage(page: u64)
      requires InMemory(Home(cfg.Offset(), page), ram.Length)
      modifies ram
      ensures ram[..] == Zeroed(old(ram[..]), Home(cfg.Offset(), page))
      ensures var at := Home(cfg.Offset(), page);
              forall j | 0 <= j < ram.Length :: ram[j] == if at <= j < at + 4096 then 0 else old(ram[j])
    {
      var at := Home(cfg.Offset(), page);
      var i := 0;
      while i < PAGE_SIZE
        invariant 0 <= i <= PAGE_SIZE
        invariant forall j | 0 <= j < ram.Length :: ram[j] == if at <= j < at + i then 0 else old(ram[j])
      {
        ram[at + i] := 0;
        i := i + 1;
      }
    }

    // ----- allocation

    /** The second half of an allocation's result: the page's address in the direct map, or null without one. */
    function Mapped(page: u64): u64 {
      if cfg.hhdm == None then 0
      else if page + cfg.hhdm.value < TWO64 then page + cfg.hhdm.value else page + cfg.hhdm.value - TWO64
    }

    method Allocate() returns (r: Outcome)
      requires Valid()
      modifies this, ram
      ensures Valid() && (st, r) == Step(cfg, old(st), Op.Allocate)
      ensures if old(head) == 0 then r == Panic else r == Granted(old(head), Mapped(old(head)))
      ensures r.Granted? ==> InMemory(Home(cfg.Offset(), r.phys), ram.Length)
      ensures ram[..] == if r.Granted? && cfg.zeroOnAlloc
                         then Zeroed(old(ram[..]), Home(cfg.Offset(), r.phys)) else old(ram[..])
    {
      HeadIsFirst();
      if head == 0 {
        return Panic;
      }
      var page := head;
      ghost var off, s := cfg.Offset(), st.free;
      NextNode(off, ram[..], head, s, 0);
      PopFront(off, ram[..], head, s);
      head := LoadNext(page);
      st := Grant(cfg, st).0;
      NullPastTheEnd(off, st.free, ram.Length, 0);
      if cfg.fifo {
        if head == 0 {
          tail := 0;
        }
      }
      freePages := freePages - 1;
      if cfg.zeroOnAlloc {
        ghost var before := ram[..];
        ZeroPage(page);
        FirstIsElsewhere(off, s);
        ZeroedElsewhere(off, before, page, head, st.free);
      }
      var virt: u64 := 0;
      if cfg.hhdm.Some? {
        virt := Add64(page, cfg.hhdm.value);
      }
      r := Granted(page, virt);
    }

    method TryAllocate() returns (r: Outcome)
      requires Valid()
      modifies this, ram
      ensures Valid() && (st, r) == Step(cfg, old(st), Op.TryAllocate)
      ensures if old(head) == 0 then r == NoPage else r == Granted(old(head), Mapped(old(head)))
      ensures r.Granted? ==> InMemory(Home(cfg.Offset(), r.phys), ram.Length)
      ensures ram[..] == if r.Granted? && cfg.zeroOnAlloc
                         then Zeroed(old(ram[..]), Home(cfg.Offset(), r.phys)) else old(ram[..])
    {
      HeadIsFirst();
      if head == 0 {
        return NoPage;
      }
      r := Allocate();
    }

    lemma HeadIsFirst()
      requires Structure()
      ensures head == NodeAt(st.free, 0) && (head != 0 <==> st.free != [])
    {
      NullPastTheEnd(cfg.Offset(), st.free, ram.Length, 0);
    }

    // ----- free

    /** Reads the next pointer of the k-th node. */
    method Next(it: u64, ghost k: nat) returns (next: u64)
      requires Structure() && k < |st.free| && it == st.free[k]
      ensures next == NodeAt(st.free, k + 1)
      ensures next != 0 <==> k + 1 < |st.free|
    {
      NextNode(cfg.Offset(), ram[..], head, st.free, k);
      NullPastTheEnd(cfg.Offset(), st.free, ram.Length, k + 1);
      next := LoadNext(it);
    }

    /** Walks the list from head looking for a page. */
    method Contains(page: u64) returns (found: bool)
      requires Structure()
      ensures found <==> page in st.free
    {
      var it := head;
      ghost var k := 0;
      HeadIsFirst();
      hide Linked;
      while it != 0
        invariant k <= |st.free| && it == NodeAt(st.free, k)
        invariant page !in st.free[..k]
        invariant it != 0 <==> k < |st.free|
        decreases |st.free| - k
      {
        if it == page {
          return true;
        }
        it := Next(it, k);
        k := k + 1;
      }
      return false;
    }

    /** The last part of free: the stores that link the page. */
    method LinkFreed(page: u64)
      requires InMemory(Home(cfg.Offset(), page), ram.Length) && TailStorable(cfg.Offset(), cfg.fifo, Pointers())
      requires freePages + 1 < TWO64
      modifies this, ram
      ensures Pointers() == LinkStores(cfg.Offset(), cfg.fifo, old(Pointers()), page)
      ensures freePages == old(freePages) + 1 && totalPages == old(totalPages) && st == old(st)
    {
      if cfg.fifo {
        if tail != 0 {
          StoreNext(tail, page);
          StoreNext(page, 0);
          tail := page;
        } else {
          StoreNext(page, 0);
          head := page;
          tail := page;
        }
      } else {
        StoreNext(page, head);
        head := page;
        if tail == 0 {
          tail := page;
        }
      }
      freePages := freePages + 1;
    }

    /** What an accepted free does to the fields: the optional zeroing, then the stores, and one more page counted. */
    ghost predicate Freed(phys: u64, before: Fields, count: u64)
      reads this, ram
    {
      var off, start := cfg.Offset(), if cfg.zeroOnFree then before.(m := Zeroed(before.m, phys)) else before;
      && InMemory(phys, |before.m|) && Home(off, Add64(phys, off)) == phys && TailStorable(off, cfg.fifo, before)
      && Pointers() == LinkStores(off, cfg.fifo, start, Add64(phys, off)) && freePages == count + 1
    }

    /** What changes in memory when a page is pushed: next pointers of free pages, and with zeroing that page. */
    ghost predicate OnlyLinksChanged(phys: u64, before: seq<byte>)
      reads this, ram
    {
      if cfg.zeroOnFree
      then ChangedOnlyLinksAnd(before, ram[..], Homes(cfg.Offset(), st.free), phys) &&
           forall j | phys + 8 <= j < phys + PAGE_SIZE <= ram.Length :: ram[j] == 0
      else ChangedOnlyLinks(before, ram[..], Homes(cfg.Offset(), st.free))
    }

    /**
     * A misaligned page, or one listed under the mapped address, is refused. Otherwise the stores are made;
     * unless that address is null or the page is listed unmapped, they are the machine's step.
     */
    method Free(phys: u64) returns (r: Outcome)
      requires Valid()
      requires !Refused(cfg, st, phys) ==> InMemory(phys, ram.Length)
      modifies this, ram
      ensures r == if phys % 4096 == 0 && (phys + cfg.Offset()) % TWO64 !in old(st).free then Done
                   else if cfg.panicOnError then Panic else Rejected
      ensures r != Done ==> Valid() && st == old(st) && r == cfg.Complaint() &&
                            Pointers() == old(Pointers()) && freePages == old(freePages)
      ensures r == Done ==> Freed(phys, old(Pointers()), old(freePages))
      ensures if old(Linkable(cfg, st, Op.Free(phys), ram.Length))
              then Valid() && (st, r) == Step(cfg, old(st), Op.Free(phys)) &&
                   (r == Done ==> OnlyLinksChanged(phys, old(ram[..])))
              else st == old(st)
    {
      FreeFacts(cfg, st, phys, ram.Length);
      hide *;
      var page := Add64(phys, cfg.Offset());
      if BitAnd(phys, PAGE_SIZE - 1) != 0 {
        return cfg.Complaint();
      }
      var found := Contains(page);
      if found {
        return cfg.Complaint();
      }
      TakeBack(phys, page);
      r := Done;
    }

    /** free once its checks have passed: the optional zeroing, then the link. */
    method TakeBack(ghost phys: u64, page: u64)
      requires Valid() && page == Add64(phys, cfg.Offset()) && page !in st.free && InMemory(phys, ram.Length)
      modifies this, ram
      ensures Freed(phys, old(Pointers()), old(freePages))
      ensures if page != 0 && phys !in old(st).free
              then Valid() && OnlyLinksChanged(phys, old(ram[..])) &&
                   st == old(st).(free := Push(cfg.fifo, old(st).free, page), held := old(st).held - {phys})
              else st == old(st)
    {
      ghost var off, before, s := cfg.Offset(), Pointers(), st.free;
      EndsOfList(off, cfg.fifo, before, s);
      ListFits(off, s, ram.Length);
      assert Home(off, page) == phys;
      if cfg.zeroOnFree {
        ZeroPage(page);
      }
      ghost var start := Pointers();
      LinkFreed(page);
      if page != 0 && phys !in s {
        UnlistedIsElsewhere(off, s, phys, ram.Length);
        if cfg.zeroOnFree {
          ZeroedElsewhere(off, before.m, page, before.head, s);
        }
        LinkPushes(off, cfg.fifo, start, s, page);
        st := st.(free := Push(cfg.fifo, s, page), held := st.held - {phys});
        if cfg.zeroOnFree {
          ZeroedThenLinked(before.m, ram[..], Homes(off, st.free), phys);
          assert forall j | phys + 8 <= j < phys + PAGE_SIZE :: ram[j] == ram[..][j];
        }
      }
    }

    // ----- reserveRegion

    /** prev->next = it->next */
    method Bypass(prev: u64, after: u64, ghost k: nat)
      requires Structure() && 0 < k < |st.free| && prev == st.free[k - 1] && after == NodeAt(st.free, k + 1)
      modifies ram
      ensures InMemory(Home(cfg.Offset(), prev), ram.Length) && LoadPtr(ram[..], Home(cfg.Offset(), prev)) == after
      ensures Linked(cfg.Offset(), ram[..], head, st.free[..k] + st.free[k + 1..])
      ensures ChangedOnlyLinks(old(ram[..]), ram[..], Homes(cfg.Offset(), st.free))
    {
      ghost var off, m, s := cfg.Offset(), ram[..], st.free;
      NextNode(off, m, head, s, k - 1);
      NextNode(off, m, head, s, k);
      InHomes(off, s, k - 1);
      PointerWriteIsLocal(m, Home(off, prev), after);
      hide LoadPtr, StorePtr, ChangedOnlyLinks, Homes, Home;
      LinkChangesWiden(m, StorePtr(m, Home(off, prev), after), {Home(off, prev)}, Homes(off, s));
      Unlink(off, m, StorePtr(m, Home(off, prev), after), head, s, k);
      StoreNext(prev, after);
    }

    /** Takes the k-th node out of the list, given its predecessor (null for the head). */
    method UnlinkNode(prev: u64, it: u64, ghost k: nat) returns (next: u64)
      requires Structure() && k < |st.free| && it == st.free[k]
      requires prev == if k == 0 then 0 else st.free[k - 1]
      modifies this, ram
      ensures Structure() && tail == old(tail)
      ensures st == old(st).(free := old(st).free[..k] + old(st).free[k + 1..])
      ensures next == NodeAt(st.free, k) && (next != 0 <==> k < |st.free|)
      ensures ChangedOnlyLinks(old(ram[..]), ram[..], Homes(cfg.Offset(), old(st).free))
    {
      ghost var off, m, s := cfg.Offset(), ram[..], st.free;
      NextNode(off, m, head, s, if k == 0 then 0 else k - 1);
      NextNode(off, m, head, s, k);
      HeadIsFirst();
      var after := Next(it, k);
      if prev == 0 {
        PopFront(off, m, head, s);
        NothingChanged(m, Homes(off, s));
        assert s[..k] + s[k + 1..] == s[1..];
        head := after;
        next := head;
      } else {
        Bypass(prev, after, k);
        next := LoadNext(prev);
      }
      freePages := freePages - 1;
      st := st.(free := s[..k] + s[k + 1..]);
    }

    /** Unlinks every occurrence of one page, in a single walk from head; the tail is left alone. */
    method Unchain(addr: u64)
      requires Structure()
      modifies this, ram
      ensures Structure() && tail == old(tail)
      ensures st == old(st).(free := Outside(old(st).free, addr, addr + 1))
      ensures ChangedOnlyLinks(old(ram[..]), ram[..], Homes(cfg.Offset(), old(st).free))
    {
      HeadIsFirst();
      hide *;
      var prev: u64, it := 0, head;
      ghost var off, s, m, k := cfg.Offset(), st.free, ram[..], 0;
      ghost var kept := Outside(s, addr, addr + 1);
      assert s[..0] + Outside(s[0..], addr, addr + 1) == kept by {
        assert s[0..] == s;
      }
      NothingChanged(m, Homes(off, s));
      while it != 0
        invariant Structure() && tail == old(tail)
        invariant st == old(st).(free := st.free) && k <= |st.free|
        invariant it == NodeAt(st.free, k) && (it != 0 <==> k < |st.free|)
        invariant prev == if k == 0 then 0 else st.free[k - 1]
        invariant st.free[..k] + Outside(st.free[k..], addr, addr + 1) == kept
        invariant Elems(st.free) <= Elems(s)
        invariant ChangedOnlyLinks(m, ram[..], Homes(off, s))
        decreases |st.free| - k
      {
        ghost var m1, s1 := ram[..], st.free;
        if it == addr {
          it := UnlinkNode(prev, it, k);
          FilterDrops(s1, addr, k);
          HomesShrink(off, s1, s);
          LinkChangesGrow(m, m1, ram[..], Homes(off, s), Homes(off, s1));
        } else {
          prev := it;
          it := Next(it, k);
          FilterKeeps(s1, addr, k);
          k := k + 1;
        }
      }
      FilterDone(st.free, addr);
    }

    /** Walks to the last node and makes it the tail. */
    method FindTail()
      requires Structure()
      modifies this`tail
      ensures Structure() && tail == LastOrNull(st.free)
    {
      tail := 0;
      var it := head;
      ghost var k := 0;
      HeadIsFirst();
      while it != 0
        invariant Structure() && k <= |st.free| && it == NodeAt(st.free, k) && tail == 0
        invariant it != 0 <==> k < |st.free|
        invariant st.free != [] ==> k < |st.free|
        decreases |st.free| - k
      {
        var next := Next(it, k);
        if next == 0 {
          tail := it;
          break;
        }
        it := next;
        k := k + 1;
      }
    }

    /** reserveRegion's outer loop. */
    method UnchainRange(start: u64, end: u64)
      requires Structure() && start <= end && start % PAGE_SIZE == 0 && end % PAGE_SIZE == 0
      modifies this, ram
      ensures Structure() && tail == old(tail)
      ensures st == old(st).(free := Outside(old(st).free, start, end))
      ensures ChangedOnlyLinks(old(ram[..]), ram[..], Homes(cfg.Offset(), old(st).free))
    {
      ghost var off, s, m := cfg.Offset(), st.free, ram[..];
      OutsideEmptyRange(s, start, start);
      NothingChanged(m, Homes(off, s));
      NodesAreAligned(off, s, ram.Length);
      hide *;
      var addr := start;
      while addr < end
        invariant start <= addr <= end && addr % PAGE_SIZE == 0
        invariant Structure() && tail == old(tail)
        invariant st == old(st).(free := Outside(s, start, addr))
        invariant ChangedOnlyLinks(m, ram[..], Homes(off, s))
      {
        ghost var m1, kept := ram[..], st.free;
        OutsideShrinks(s, start, addr);
        HomesShrink(off, kept, s);
        Unchain(addr);
        LinkChangesGrow(m, m1, ram[..], Homes(off, s), Homes(off, kept));
        OutsideNextPage(s, start, addr);
        NextPage(addr, end);
        addr := addr + PAGE_SIZE;
      }
    }

    method ReserveRegion(base: u64, length: u64)
      requires Valid()
      modifies this, ram
      ensures Valid() && st == Step(cfg, old(st), Reserve(base, length)).0
      ensures ChangedOnlyLinks(old(ram[..]), ram[..], Homes(cfg.Offset(), old(st).free))
    {
      AlignedRange(base);
      AlignedRange(Add64(base, length));
      var start: u64 := AlignUp(base, PAGE_SIZE);
      var end: u64 := AlignDown(Add64(base, length), PAGE_SIZE);
      ghost var s := st.free;
      if start >= end {
        OutsideEmptyRange(s, start, end);
        NothingWithdrawn(st.withdrawn, s);
        return;
      }
      UnchainRange(start, end);
      st := st.(withdrawn := st.withdrawn + (Elems(s) - Elems(st.free)));
      if cfg.fifo {
        FindTail();
      }
    }

    // ----- addRegion

    /** The stores of one turn of addRegion's loop. */
    method LinkNew(page: u64)
      requires InMemory(page, ram.Length) && TailStorable(cfg.Offset(), cfg.fifo, Pointers())
      requires freePages + 1 < TWO64 && totalPages + 1 < TWO64
      modifies this, ram
      ensures Pointers() == AddStores(cfg.Offset(), cfg.fifo, old(Pointers()), page)
      ensures freePages == old(freePages) + 1 && totalPages == old(totalPages) + 1 && st == old(st)
    {
      WritePtr(ram, page, 0);
      WriteBytes(ram, page + 8, ToBytes(0, 4));
      if cfg.fifo {
        if tail != 0 {
          StoreNext(tail, page);
          tail := page;
        } else {
          head := page;
          tail := page;
        }
      } else {
        WritePtr(ram, page, head);
        head := page;
        if tail == 0 {
          tail := page;
        }
      }
      totalPages := totalPages + 1;
      freePages := freePages + 1;
    }

    /** One turn of addRegion's loop: unless the page is null or already free, its stores push it. */
    method AddPage(page: u64)
      requires Valid() && InMemory(page, ram.Length) && totalPages + 1 < TWO64
      modifies this, ram
      ensures TailStorable(cfg.Offset(), cfg.fifo, old(Pointers()))
      ensures Pointers() == AddStores(cfg.Offset(), cfg.fifo, old(Pointers()), page)
      ensures freePages == old(freePages) + 1 && totalPages == old(totalPages) + 1
      ensures if page != 0 && page !in Homes(cfg.Offset(), old(st).free)
              then Valid() && ChangedOnlyIn(old(ram[..]), ram[..], Homes(cfg.Offset(), st.free)) &&
                   st == old(st).(free := Push(cfg.fifo, old(st).free, page), total := old(st).total + 1) &&
                   forall j | page + 8 <= j < page + 12 :: ram[j] == 0
              else st == old(st)
    {
      ghost var off, before, s := cfg.Offset(), Pointers(), st.free;
      EndsOfList(off, cfg.fifo, before, s);
      ListFits(off, s, ram.Length);
      LinkNew(page);
      if page != 0 && page !in Homes(off, s) {
        assert Home(off, page) == page;
        hide Linked, Homes, Home, AddStores, ChangedOnlyIn;
        ElsewhereMeans(off, s, page);
        AddPushes(off, cfg.fifo, before, s, page);
        PushedHomes(off, cfg.fifo, before, s, page);
        AddStoresAreLocal(off, cfg.fifo, before, page, Homes(off, Push(cfg.fifo, s, page)));
        st := st.(free := Push(cfg.fifo, s, page), total := st.total + 1);
        assert forall j | page + 8 <= j < page + 12 :: ram[j] == ram[..][j];
      }
    }

    /** addRegion's loop. */
    method AddPages(start: u64, end: u64)
      requires Valid() && start % PAGE_SIZE == 0 && end % PAGE_SIZE == 0
      requires forall p | p in Pages(start, end) :: Frame(p, ram.Length) && p !in Homes(cfg.Offset(), st.free)
      requires st.total + |Pages(start, end)| < TWO64
      modifies this, ram
      ensures Valid()
      ensures st == old(st).(free := PushAll(cfg.fifo, old(st).free, Pages(start, end)),
                             total := old(st).total + |Pages(start, end)|)
      ensures ChangedOnlyIn(old(ram[..]), ram[..], Homes(cfg.Offset(), st.free))
    {
      hide Linked, Homes, PushAll;
      ghost var off, m, target := cfg.Offset(), ram[..], PushAll(cfg.fifo, st.free, Pages(start, end));
      ghost var count := st.total + |Pages(start, end)|;
      var addr := start;
      while addr < end
        invariant addr % PAGE_SIZE == 0 && Valid()
        invariant forall p | p in Pages(addr, end) :: Frame(p, ram.Length) && p !in Homes(off, st.free)
        invariant st.held == old(st).held && st.withdrawn == old(st).withdrawn
        invariant st.total + |Pages(addr, end)| == count
        invariant PushAll(cfg.fifo, st.free, Pages(addr, end)) == target
        invariant ChangedOnlyIn(m, ram[..], Homes(off, st.free))
        decreases end - addr
      {
        ghost var m1, s := ram[..], st.free;
        AddStep(off, cfg.fifo, s, addr, end, ram.Length);
        NextPage(addr, end);
        AddPage(addr);
        ChangesGrow(m, m1, ram[..], Homes(off, s), Homes(off, st.free));
        addr := addr + PAGE_SIZE;
      }
      NoPagesLeft(cfg.fifo, st.free, addr, end);
    }

    /** Any region whose pages are frames and not free already, whoever holds them. */
    method AddRegion(base: u64, length: u64)
      requires Valid() && st.total + |RegionPages(base, length)| < TWO64
      requires forall p | p in RegionPages(base, length) :: Frame(p, ram.Length) && p !in Homes(cfg.Offset(), st.free)
      modifies this, ram
      ensures Valid() && st == Step(cfg, old(st), Op.AddRegion(base, length)).0
      ensures ChangedOnlyIn(old(ram[..]), ram[..], Homes(cfg.Offset(), st.free))
    {
      AlignedRange(base);
      AlignedRange(Add64(base, length));
      var start: u64 := AlignUp(base, PAGE_SIZE);
      var end: u64 := AlignDown(Add64(base, length), PAGE_SIZE);
      if start >= end {
        return;
      }
      AddPages(start, end);
    }

    // ----- init

    /** One turn of init's loop. */
    method InitEntry(entry: MapEntry)
      requires Valid() && Owned() && LegalRun(cfg, st, EntryOps(entry))
      requires forall p | p in Contributed(entry) :: Frame(p, ram.Length)
      modifies this, ram
      ensures Valid() && Owned() && st == Run(cfg, old(st), EntryOps(entry))
    {
      if entry.usable {
        var start: u64, end := entry.base, Add64(entry.base, entry.length);
        if end <= MIN_PHYSICAL {
          return;
        }
        if start < MIN_PHYSICAL {
          start := MIN_PHYSICAL;
        }
        var length := Sub64(end, start);
        assert EntryRegion(entry) == Some((start, length));
        ContributedPages(entry);
        OneOp(cfg, st, EntryOps(entry), Op.AddRegion(start, length));
        hide EntryOps, LegalRun, Run, Linked, RegionPages, AllAdded;
        assert forall p | p in RegionPages(start, length) :: p in Elems(RegionPages(start, length));
        RegionFitsMemory(cfg, st, start, length, ram.Length);
        AddRegion(start, length);
      }
    }

    /**
     * A map whose entries bring in frames of memory and no page twice; the pages of one that fits and does
     * not overlap are the usable ones.
     */
    method Init(entries: seq<MapEntry>) returns (r: Outcome)
      requires Valid() && Owned() && st == EMPTY && Bootable(entries)
      requires forall i, p | 0 <= i < |entries| && p in Contributed(entries[i]) :: Frame(p, ram.Length)
      modifies this, ram
      ensures Valid() && Owned()
      ensures r == (if entries == [] then Panic else Done) && st == Run(cfg, EMPTY, BootOps(entries))
      ensures forall p: u64 :: p in st.free <==> AnyContributed(entries, p)
      ensures AllFit(entries) && Disjoint(entries) ==> forall p: u64 :: p in st.free <==> AnyUsable(entries, p)
      ensures freePages == totalPages == |st.free| && NoDup(st.free)
    {
      hide Run, LegalRun, BootOps, EntryOps, Conserved, Universe, Linked, AnyUsable, AnyContributed, Bootable, Disjoint;
      BootIsLegalIff(cfg, entries);
      if AllFit(entries) && Disjoint(entries) {
        BootIsExact(cfg, entries);
      }
      if entries == [] {
        NothingLeft(cfg, st, entries);
        return Panic;
      }
      InitEntries(entries);
      r := Done;
    }

    /** init's loop. */
    method InitEntries(entries: seq<MapEntry>)
      requires Valid() && Owned() && LegalRun(cfg, st, BootOps(entries))
      requires forall i, p | 0 <= i < |entries| && p in Contributed(entries[i]) :: Frame(p, ram.Length)
      modifies this, ram
      ensures Valid() && Owned() && st == Run(cfg, old(st), BootOps(entries))
    {
      hide LegalRun, Run, BootOps, EntryOps, Conserved, Universe, AllAdded, Linked;
      ghost var booted := Run(cfg, st, BootOps(entries));
      assert entries[0..] == entries;
      var i := 0;
      while i < |entries|
        invariant 0 <= i <= |entries|
        invariant Valid() && Owned()
        invariant LegalRun(cfg, st, BootOps(entries[i..])) && Run(cfg, st, BootOps(entries[i..])) == booted
      {
        BootStep(cfg, st, entries, i);
        InitEntry(entries[i]);
        i := i + 1;
      }
      NothingLeft(cfg, st, entries);
    }

    // ----- whole runs

    /** One client call, of a client that need not own what it frees. */
    method Perform(op: Op) returns (r: Outcome)
      requires Valid() && Linkable(cfg, st, op, ram.Length)
      modifies this, ram
      ensures Valid() && (st, r) == Step(cfg, old(st), op)
      ensures ChangedOnlyIn(old(ram[..]), ram[..], Homes(cfg.Offset(), old(st).free) + Homes(cfg.Offset(), st.free))
    {
      ghost var off, before, m := cfg.Offset(), st.free, ram[..];
      hide Linked;
      match op
      case Allocate =>
        r := Allocate();
        GrantedChanges(off, before, m, ram[..], Homes(off, st.free), r, cfg.zeroOnAlloc);
      case TryAllocate =>
        r := TryAllocate();
        GrantedChanges(off, before, m, ram[..], Homes(off, st.free), r, cfg.zeroOnAlloc);
      case Free(phys) =>
        r := Free(phys);
        HomesPush(off, before, Add64(phys, off));
        assert InMemory(phys, ram.Length) ==> Home(off, Add64(phys, off)) == phys;
      case Reserve(base, length) =>
        ReserveRegion(base, length);
        r := Done;
    }

    /**
     * Any run of calls by clients that free what they like, interleaved with their writes: the pointers
     * keep representing the machine's state, every call reports what the machine says, and outside the
     * free pages memory holds what the clients wrote.
     */
    method ExecuteAny(events: seq<Event>) returns (rs: seq<Outcome>)
      requires Valid() && WritesAllowed(cfg, st, events, ram.Length)
      requires AllLinkable(cfg, st, Calls(events), ram.Length)
      modifies this, ram
      ensures Valid() && st == Run(cfg, old(st), Calls(events)) && rs == Outcomes(cfg, old(st), Calls(events))
      ensures forall j | 0 <= j < ram.Length && PageOf(j) !in Homes(cfg.Offset(), old(st).free) &&
                         NeverFreed(Calls(events), PageOf(j)) ::
                ram[j] == Applied(old(ram[..]), events)[j]
    {
      hide Run, Outcomes, Calls, Applied, WritesAllowed, AllLinkable, NeverFreed;
      hide Linked, Untouched, SameAt, ChangedOnlyIn, Homes;
      ghost var off, ops, target := cfg.Offset(), Calls(events), Applied(ram[..], events);
      ghost var end, reports := Run(cfg, st, ops), Outcomes(cfg, st, ops);
      ghost var kept := set j: nat | j < ram.Length && PageOf(j) !in Homes(off, st.free) && NeverFreed(ops, PageOf(j));
      KeptBytes(cfg, st, ops, target, kept);
      rs := [];
      var rest := events;
      while rest != []
        invariant Valid() && WritesAllowed(cfg, st, rest, ram.Length) && AllLinkable(cfg, st, Calls(rest), ram.Length)
        invariant Run(cfg, st, Calls(rest)) == end && rs + Outcomes(cfg, st, Calls(rest)) == reports
        invariant Untouched(cfg, st, Calls(rest), kept) && SameAt(target, Applied(ram[..], rest), kept)
        decreases |rest|
      {
        ghost var st0, m0 := st, ram[..];
        match rest[0] {
          case Call(op) =>
            NextCall(cfg, st, rest, ram.Length);
            CallStaysOut(cfg, st, rest, kept, ram.Length);
            var r := Perform(op);
            rs := rs + [r];
            CallKeepsBytes(cfg, st0, st, m0, ram[..], rest, kept);
            SameAtTrans(target, Applied(m0, rest[1..]), Applied(ram[..], rest[1..]), kept);
          case Write(addr, b) =>
            NextWrite(cfg, st, m0, rest);
            OwnerWrite(addr, b);
        }
        rest := rest[1..];
      }
      EventsDone(cfg, st, ram[..], target, kept);
    }

    /**
     * A legal run is such a run: what clients free they hold, so it can be linked. The books stay
     * balanced, and a page that is held and never freed keeps what its holder wrote.
     */
    method Execute(events: seq<Event>) returns (rs: seq<Outcome>)
      requires Valid() && Owned() && cfg.Offset() == 0
      requires LegalRun(cfg, st, Calls(events)) && NoRegions(Calls(events))
      requires WritesAllowed(cfg, st, events, ram.Length)
      modifies this, ram
      ensures Valid() && Owned() && st == Run(cfg, old(st), Calls(events)) && rs == Outcomes(cfg, old(st), Calls(events))
      ensures forall j | 0 <= j < ram.Length && PageOf(j) in old(st).held && NeverFreed(Calls(events), PageOf(j)) ::
                ram[j] == Applied(old(ram[..]), events)[j]
    {
      hide Linked, WritesAllowed, NeverFreed, Applied, Run, LegalRun, Outcomes, Calls, AllLinkable;
      LegalRunLinkable(cfg, st, Calls(events), ram.Length);
      RunConserves(cfg, st, Calls(events));
      NoRegionsAddNothing(Calls(events), Universe(st));
      HeldIsNotFree(st);
      rs := ExecuteAny(events);
    }

    /** A client writes a byte anywhere outside the free pages: the allocator does not notice. */
    method OwnerWrite(a: nat, b: byte)
      requires Valid() && a < ram.Length && PageOf(a) !in Homes(cfg.Offset(), st.free)
      modifies ram
      ensures Valid() && ram[..] == old(ram[..])[a := b]
    {
      ghost var m := ram[..];
      ram[a] := b;
      WritesElsewhereKeepList(cfg.Offset(), m, ram[..], head, st.free);
    }
  }
}
