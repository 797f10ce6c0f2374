/** What the linking stores of free and addRegion do to the chain, on every page they can be handed. */
module FreeStores {
  import opened MachineWords
  import opened RawMemory
  import opened FreeList
  import opened PageAllocatorSpec

  /** The memory and the two pointers that the stores update. */
  datatype Fields = Fields(m: seq<byte>, head: u64, tail: u64)

  /** The fields represent the list s; under LIFO the tail is never followed. */
  ghost predicate Represents(off: u64, fifo: bool, f: Fields, s: seq<u64>) {
    Linked(off, f.m, f.head, s) && (fifo ==> f.tail == LastOrNull(s))
  }

  /** Under FIFO the tail, if there is one, can be stored to. */
  predicate TailStorable(off: u64, fifo: bool, f: Fields) {
    fifo && f.tail != 0 ==> InMemory(Home(off, f.tail), |f.m|)
  }

  lemma EndsOfList(off: u64, fifo: bool, f: Fields, s: seq<u64>)
    requires Represents(off, fifo, f, s)
    ensures TailStorable(off, fifo, f) && (fifo ==> (f.tail != 0 <==> s != [])) && (f.head != 0 <==> s != [])
  {
    if s != [] {
      NextNode(off, f.m, f.head, s, 0);
      NextNode(off, f.m, f.head, s, |s| - 1);
    }
  }

  // ----- free

  /** The stores of free that link a page. */
  function LinkStores(off: u64, fifo: bool, f: Fields, page: u64): Fields
    requires InMemory(Home(off, page), |f.m|) && TailStorable(off, fifo, f)
  {
    var at := Home(off, page);
    if !fifo then Fields(StorePtr(f.m, at, f.head), page, if f.tail == 0 then page else f.tail)
    else if f.tail != 0 then Fields(StorePtr(StorePtr(f.m, Home(off, f.tail), page), at, 0), f.head, page)
    else Fields(StorePtr(f.m, at, 0), page, page)
  }

  /** Two pointer stores in different pages. */
  lemma TwoStores(m: seq<byte>, a: u64, v: u64, b: u64)
    requires InMemory(a, |m|) && InMemory(b, |m|) && a != b
    ensures Appended(m, StorePtr(StorePtr(m, a, v), b, 0), a, v, b)
    ensures ChangedOnlyLinks(m, StorePtr(StorePtr(m, a, v), b, 0), {a, b})
  {
    var m1 := StorePtr(m, a, v);
    PointerWriteIsLocal(m, a, v);
    PointerWriteIsLocal(m1, b, 0);
    hide StorePtr, LoadPtr;
    LinkChangesWiden(m, m1, {a}, {a, b});
    LinkChangesGrow(m, m1, StorePtr(m1, b, 0), {a, b}, {b});
  }

  /**
   * A non-null page on which no node lies is pushed, and nothing but next pointers of free pages is
   * touched.
   */
  lemma LinkPushes(off: u64, fifo: bool, f: Fields, s: seq<u64>, page: u64)
    requires Represents(off, fifo, f, s) && page != 0 && InMemory(Home(off, page), |f.m|) && Elsewhere(off, s, page)
    requires TailStorable(off, fifo, f)
    ensures var f' := LinkStores(off, fifo, f, page);
            && Represents(off, fifo, f', Push(fifo, s, page))
            && ChangedOnlyLinks(f.m, f'.m, Homes(off, Push(fifo, s, page)))
  {
    EndsOfList(off, fifo, f, s);
    var f', at := LinkStores(off, fifo, f, page), Home(off, page);
    HomesPush(off, s, page);
    if fifo && s != [] {
      InHomes(off, s, |s| - 1);
      TwoStores(f.m, Home(off, f.tail), page, at);
      hide StorePtr, LoadPtr, Linked, Elsewhere, Appended, ChangedOnlyLinks, Homes, Home;
      PushBack(off, f.m, f'.m, f.head, s, page);
      LinkChangesWiden(f.m, f'.m, {Home(off, f.tail), at}, Homes(off, s + [page]));
    } else {
      PointerWriteIsLocal(f.m, at, f.head);
      assert s == [] ==> f.head == 0;
      hide StorePtr, LoadPtr, Linked, Elsewhere, Redirected, ChangedOnlyLinks, Homes, Home;
      PushFront(off, f.m, f'.m, f.head, s, page);
      assert s == [] ==> s + [page] == [page] + s;
      LinkChangesWiden(f.m, f'.m, {at}, Homes(off, Push(fifo, s, page)));
    }
  }

  /**
   * The stores of an accepted free push the page if and only if its address is not null and the list does
   * not hold the page under its unmapped address.
   */
  lemma FreePushesIff(off: u64, fifo: bool, f: Fields, s: seq<u64>, p: u64)
    requires Represents(off, fifo, f, s) && InMemory(p, |f.m|) && MapFits(off, |f.m|) && Add64(p, off) !in s
    ensures TailStorable(off, fifo, f) && Home(off, Add64(p, off)) == p
    ensures var page := Add64(p, off);
            Represents(off, fifo, LinkStores(off, fifo, f, page), Push(fifo, s, page)) <==> page != 0 && p !in s
  {
    var page := Add64(p, off);
    EndsOfList(off, fifo, f, s);
    if page != 0 && p !in s {
      UnlistedIsElsewhere(off, s, p, |f.m|);
      LinkPushes(off, fifo, f, s, page);
    } else {
      hide StorePtr, LoadPtr;
      NotPushed(off, fifo, s, page, LinkStores(off, fifo, f, page));
    }
  }

  /** A null page, or one on which a node lies, cannot be in the list besides. */
  lemma NotPushed(off: u64, fifo: bool, s: seq<u64>, page: u64, f': Fields)
    requires page == 0 || !Elsewhere(off, s, page)
    ensures !Represents(off, fifo, f', Push(fifo, s, page))
  {
    hide LoadPtr, Home, InMemory;
    var s', n: nat := Push(fifo, s, page), if fifo then |s| else 0;
    assert s'[n] == page;
    if page != 0 {
      var k :| 0 <= k < |s| && Home(off, s[k]) == Home(off, page);
      var k' := if fifo then k else k + 1;
      assert s'[k'] == s[k];
    }
  }

  /** A page that is listed neither mapped nor unmapped has no node on it. */
  lemma UnlistedIsElsewhere(off: u64, s: seq<u64>, p: u64, limit: nat)
    requires InMemory(p, limit) && MapFits(off, limit) && Add64(p, off) !in s
    ensures Elsewhere(off, s, Add64(p, off)) <==> p !in s
  {
    if p !in s {
      forall i | 0 <= i < |s|
        ensures Home(off, s[i]) != Home(off, Add64(p, off))
      {
        assert s[i] != p && s[i] != Add64(p, off);
      }
    } else {
      var i :| 0 <= i < |s| && s[i] == p;
      assert Home(off, s[i]) == Home(off, Add64(p, off));
    }
  }

  // ----- freeing a page that is already free

  /** The n-th pointer on the way from a. */
  function Walk(off: u64, m: seq<byte>, a: u64, n: nat): u64 {
    if n == 0 then a else LoadPtr(m, Home(off, Walk(off, m, a, n - 1)))
  }

  /** No walk from the head ever comes to the null pointer. */
  ghost predicate Endless(off: u64, f: Fields) {
    forall n: nat :: Walk(off, f.m, f.head, n) != 0
  }

  /** When the node s[k] points back to one of the first k + 1 pages, every walk from these pages stays among them. */
  lemma {:induction false} RingWalk(off: u64, m: seq<byte>, m1: seq<byte>, head: u64, s: seq<u64>, k: nat,
                                    back: u64, j: nat, a: u64, i: nat, n: nat) returns (e: nat)
    requires Linked(off, m, head, s) && k < |s| && Redirected(m, m1, Home(off, s[k]), back)
    requires j <= k && back != 0 && Home(off, back) == Home(off, s[j])
    requires i <= k && a != 0 && Home(off, a) == Home(off, s[i])
    ensures e <= k && Walk(off, m1, a, n) != 0 && Home(off, Walk(off, m1, a, n)) == Home(off, s[e])
    decreases n
  {
    hide LoadPtr, Home, InMemory;
    e := i;
    if n > 0 {
      var before := RingWalk(off, m, m1, head, s, k, back, j, a, i, n - 1);
      NextNode(off, m, head, s, before);
      e := if before == k then j else before + 1;
      NextNode(off, m, head, s, e);
    }
  }

  lemma RingIsEndless(off: u64, m: seq<byte>, f1: Fields, head: u64, s: seq<u64>, k: nat, back: u64, j: nat, i: nat)
    requires Linked(off, m, head, s) && k < |s| && Redirected(m, f1.m, Home(off, s[k]), back)
    requires j <= k && back != 0 && Home(off, back) == Home(off, s[j])
    requires i <= k && f1.head != 0 && Home(off, f1.head) == Home(off, s[i])
    ensures Endless(off, f1)
  {
    hide Linked, Redirected, Home, LoadPtr;
    forall n: nat
      ensures Walk(off, f1.m, f1.head, n) != 0
    {
      var _ := RingWalk(off, m, f1.m, head, s, k, back, j, f1.head, i, n);
    }
  }

  /** Linking a page on which the node s[k] lies cuts a FIFO list behind it and makes a LIFO list endless. */
  lemma FreeListedBreaks(off: u64, fifo: bool, f: Fields, s: seq<u64>, k: nat, page: u64)
    requires Represents(off, fifo, f, s) && k < |s| && page != 0 && Home(off, page) == Home(off, s[k])
    ensures TailStorable(off, fifo, f) && InMemory(Home(off, page), |f.m|)
    ensures var f1 := LinkStores(off, fifo, f, page);
            if fifo then Linked(off, f1.m, f1.head, s[..k + 1]) else Endless(off, f1)
  {
    EndsOfList(off, fifo, f, s);
    NextNode(off, f.m, f.head, s, k);
    NextNode(off, f.m, f.head, s, 0);
    if fifo {
      CutBehind(off, f, s, k, page);
    } else {
      var f1 := LinkStores(off, fifo, f, page);
      StoreRedirects(f.m, Home(off, page), f.head);
      hide StorePtr, LoadPtr, Linked, Redirected, Endless, Home;
      RingIsEndless(off, f.m, f1, f.head, s, k, f.head, 0, k);
    }
  }

  /** A node that now points to null, with the nodes before it as they were, ends the chain. */
  lemma ChainEndsAt(off: u64, m: seq<byte>, m': seq<byte>, head: u64, s: seq<u64>, k: nat)
    requires Linked(off, m, head, s) && k < |s| && |m'| == |m| && LoadPtr(m', Home(off, s[k])) == 0
    requires forall i | 0 <= i < k :: LoadPtr(m', Home(off, s[i])) == LoadPtr(m, Home(off, s[i]))
    ensures Linked(off, m', head, s[..k + 1])
  {
    hide LoadPtr, Home, InMemory;
    var t := s[..k + 1];
    forall i | 0 <= i < |t|
      ensures LoadPtr(m', Home(off, t[i])) == NodeAt(t, i + 1)
    {
      NextNode(off, m, head, s, i);
    }
  }

  lemma CutBehind(off: u64, f: Fields, s: seq<u64>, k: nat, page: u64)
    requires Represents(off, true, f, s) && TailStorable(off, true, f) && f.tail != 0
    requires k < |s| && Home(off, page) == Home(off, s[k])
    ensures InMemory(Home(off, page), |f.m|)
    ensures var f1 := LinkStores(off, true, f, page); Linked(off, f1.m, f1.head, s[..k + 1])
  {
    NextNode(off, f.m, f.head, s, k);
    var m1, at := StorePtr(f.m, Home(off, f.tail), page), Home(off, page);
    StoreRedirects(f.m, Home(off, f.tail), page);
    StoreRedirects(m1, at, 0);
    hide StorePtr, LoadPtr;
    forall i | 0 <= i < k
      ensures LoadPtr(StorePtr(m1, at, 0), Home(off, s[i])) == LoadPtr(f.m, Home(off, s[i]))
    {
      NextNode(off, f.m, f.head, s, i);
    }
    hide Home, Linked;
    ChainEndsAt(off, f.m, StorePtr(m1, at, 0), f.head, s, k);
  }

  /**
   * Freeing a page that is already free, so that the node s[k] lies on it, is refused if and only if it is
   * listed under its mapped address: the scan compares with that address alone. A page that is listed
   * under its own address while there is a direct map is accepted, and the list breaks.
   */
  lemma DoubleFreeCaughtIff(cfg: Config, f: Fields, st: State, p: u64, k: nat)
    requires Represents(cfg.Offset(), cfg.fifo, f, st.free) && MapFits(cfg.Offset(), |f.m|)
    requires k < |st.free| && Home(cfg.Offset(), st.free[k]) == p
    ensures InMemory(p, |f.m|) && Home(cfg.Offset(), Add64(p, cfg.Offset())) == p
    ensures TailStorable(cfg.Offset(), cfg.fifo, f)
    ensures Refused(cfg, st, p) <==> st.free[k] == Add64(p, cfg.Offset())
    ensures cfg.Offset() == 0 ==> Refused(cfg, st, p)
    ensures !Refused(cfg, st, p) ==>
      var f1 := LinkStores(cfg.Offset(), cfg.fifo, f, Add64(p, cfg.Offset()));
      && Step(cfg, st, Free(p)).1 == Done
      && if cfg.fifo then Linked(cfg.Offset(), f1.m, f1.head, st.free[..k + 1]) else Endless(cfg.Offset(), f1)
  {
    var off, s := cfg.Offset(), st.free;
    var page := Add64(p, off);
    NextNode(off, f.m, f.head, s, k);
    EndsOfList(off, cfg.fifo, f, s);
    hide Endless;
    if page in s {
      var i :| 0 <= i < |s| && s[i] == page;
      assert Home(off, s[i]) == Home(off, s[k]);
    } else {
      FreeListedBreaks(off, cfg.fifo, f, s, k, page);
    }
  }

  const ONE_PAGE: Fields := Fields(seq(0x2000, _ => 0), 0x1000, 0x1000)

  lemma OnePage(off: u64, fifo: bool)
    requires MapFits(off, 0x2000)
    ensures Represents(off, fifo, ONE_PAGE, [0x1000])
  {
    ZeroPointer(0x2000, 0x1000);
    hide LoadPtr;
  }

  lemma {:induction false} ZerosDenoteZero(n: nat)
    ensures FromBytes(seq(n, _ => 0)) == 0
  {
    if n > 0 {
      assert seq(n, _ => 0)[1..] == seq(n - 1, _ => 0);
      ZerosDenoteZero(n - 1);
    }
  }

  /**
   * An instance: with the direct map at its usual place the only free page is freed a second time
   * without complaint, and from then on the chain never ends.
   */
  lemma OffsetAcceptsDoubleFree(cfg: Config)
    requires cfg.hhdm == Some(0xFFFF_8000_0000_0000) && !cfg.fifo
    ensures Step(cfg, State([0x1000], 1, {}, {}), Free(0x1000)).1 == Done
    ensures Endless(cfg.Offset(), LinkStores(cfg.Offset(), false, ONE_PAGE, 0xFFFF_8000_0000_1000))
  {
    OnePage(cfg.Offset(), false);
    DoubleFreeCaughtIff(cfg, ONE_PAGE, State([0x1000], 1, {}, {}), 0x1000, 0);
  }

  // ----- freeing the null page

  /**
   * Freeing the null page: LIFO drops the list at once, FIFO forgets its end. The scan that looks for
   * the null page never finds it, so a second such free is accepted too; and the next page c that is
   * freed becomes the whole list, whatever was free before.
   */
  lemma NullFreeForgetsList(fifo: bool, f: Fields, s: seq<u64>, c: u64)
    requires Represents(0, fifo, f, s) && InMemory(0, |f.m|) && Frame(c, |f.m|) && c !in s
    ensures TailStorable(0, fifo, f)
    ensures var f1, t := LinkStores(0, fifo, f, 0), if fifo then s else [];
            && Linked(0, f1.m, f1.head, t) && 0 !in t && c !in t
            && (fifo ==> f1.tail == 0) && Represents(0, fifo, LinkStores(0, fifo, f1, c), [c])
  {
    EndsOfList(0, fifo, f, s);
    assert forall i | 0 <= i < |s| :: s[i] != 0;
    var f1 := LinkStores(0, fifo, f, 0);
    if fifo {
      NullAppended(f, s);
    } else {
      StoreRedirects(f.m, 0, f.head);
    }
    OnlyPage(f1.m, c);
  }

  lemma OnlyPage(m: seq<byte>, c: u64)
    requires Frame(c, |m|)
    ensures Linked(0, StorePtr(m, c, 0), c, [c])
  {
    StoreRedirects(m, c, 0);
  }

  /** Appending the null page writes nulls over the end of the chain: the chain stays, the tail is lost. */
  lemma NullAppended(f: Fields, s: seq<u64>)
    requires Represents(0, true, f, s) && TailStorable(0, true, f) && InMemory(0, |f.m|)
    requires f.tail != 0 <==> s != []
    ensures var f1 := LinkStores(0, true, f, 0); Linked(0, f1.m, f1.head, s) && f1.tail == 0 && |f1.m| == |f.m|
  {
    StoreRedirects(f.m, 0, 0);
    if s != [] {
      var m1 := StorePtr(f.m, f.tail, 0);
      StoreRedirects(f.m, f.tail, 0);
      StoreRedirects(m1, 0, 0);
      hide StorePtr, LoadPtr;
      forall i | 0 <= i < |s|
        ensures LoadPtr(StorePtr(m1, 0, 0), Home(0, s[i])) == NodeAt(s, i + 1)
      {
        NextNode(0, f.m, f.head, s, i);
      }
    }
  }

  /** An instance: the only free page is 0x1000; freeing the null page twice under LIFO is accepted and leaves nothing. */
  lemma NullFreeLosesPage()
    ensures Represents(0, false, ONE_PAGE, [0x1000])
    ensures var f1 := LinkStores(0, false, ONE_PAGE, 0);
            Linked(0, f1.m, f1.head, []) && Linked(0, LinkStores(0, false, f1, 0).m, 0, [])
  {
    OnePage(0, false);
  }

  // ----- addRegion

  /** The node of a page that addRegion initialises: no successor, no flags. */
  function Cleared(m: seq<byte>, page: u64): (r: seq<byte>)
    requires InMemory(page, |m|)
    ensures |r| == |m|
  {
    Written(StorePtr(m, page, 0), page + 8, ToBytes(0, 4))
  }

  /** The stores of one turn of addRegion's loop. */
  function AddStores(off: u64, fifo: bool, f: Fields, page: u64): Fields
    requires InMemory(page, |f.m|) && TailStorable(off, fifo, f)
  {
    var m := Cleared(f.m, page);
    if !fifo then Fields(StorePtr(m, page, f.head), page, if f.tail == 0 then page else f.tail)
    else if f.tail != 0 then Fields(StorePtr(m, Home(off, f.tail), page), f.head, page)
    else Fields(m, page, page)
  }

  lemma ZeroFlags(m: seq<byte>, a: nat)
    requires a + 4 <= |m|
    ensures forall j | a <= j < a + 4 :: Written(m, a, ToBytes(0, 4))[j] == 0
  {
    assert ToBytes(0, 4) == [0, 0, 0, 0];
  }

  lemma ClearedRedirects(m: seq<byte>, p: u64)
    requires InMemory(p, |m|)
    ensures Redirected(m, Cleared(m, p), p, 0)
  {
    var m0, m1 := StorePtr(m, p, 0), Cleared(m, p);
    StoreRedirects(m, p, 0);
    WriteThenLoad(m0, p + 8, ToBytes(0, 4), p);
    hide Written, LoadPtr, StorePtr;
    forall q: u64 | q % PAGE_SIZE == 0 && q != p
      ensures LoadPtr(m1, q) == LoadPtr(m, q)
    {
      WriteThenLoad(m0, p + 8, ToBytes(0, 4), q);
    }
  }

  lemma ClearedStaysInPage(m: seq<byte>, p: u64)
    requires InMemory(p, |m|)
    ensures ChangedOnlyIn(m, Cleared(m, p), {p})
    ensures forall j | p + 8 <= j < p + 12 :: Cleared(m, p)[j] == 0
  {
    var m0 := StorePtr(m, p, 0);
    WriteStaysInPage(m, p, p, ToBytes(0, 8));
    WriteStaysInPage(m0, p, p + 8, ToBytes(0, 4));
    ChangesGrow(m, m0, Cleared(m, p), {p}, {p});
    ZeroFlags(m0, p + 8);
  }

  /** A later pointer store into the cleared page overrides the null. */
  lemma ClearedThenStored(m: seq<byte>, p: u64, v: u64)
    requires InMemory(p, |m|)
    ensures Redirected(m, StorePtr(Cleared(m, p), p, v), p, v)
  {
    ClearedRedirects(m, p);
    StoreRedirects(Cleared(m, p), p, v);
  }

  /** A later pointer store into another page leaves the null. */
  lemma ClearedThenAppended(m: seq<byte>, a: u64, v: u64, p: u64)
    requires InMemory(a, |m|) && InMemory(p, |m|) && a != p
    ensures Appended(m, StorePtr(Cleared(m, p), a, v), a, v, p)
  {
    ClearedRedirects(m, p);
    StoreRedirects(Cleared(m, p), a, v);
  }

  lemma FlagsAreNoLink(page: u64)
    requires page % PAGE_SIZE == 0
    ensures forall j | page + 8 <= j < page + 12 :: j % PAGE_SIZE >= 8
  {
  }

  /** A pointer store after the page was cleared: only the listed pages change, and the flags stay zero. */
  lemma StoredAfterClearing(m: seq<byte>, page: u64, a: u64, v: u64, pages: set<u64>)
    requires InMemory(page, |m|) && InMemory(a, |m|) && page in pages && a in pages
    ensures var m' := StorePtr(Cleared(m, page), a, v);
            ChangedOnlyIn(m, m', pages) && forall j | page + 8 <= j < page + 12 :: m'[j] == 0
  {
    var m0, m' := Cleared(m, page), StorePtr(Cleared(m, page), a, v);
    ClearedStaysInPage(m, page);
    PointerWriteIsLocal(m0, a, v);
    hide Cleared, StorePtr, Redirected, LoadPtr;
    FlagsAreNoLink(page);
    forall j | page + 8 <= j < page + 12
      ensures m'[j] == 0
    {
      assert m'[j] == m0[j];
    }
  }

  /** What the stores change: the added page, and the next pointer of the last free page. */
  lemma AddStoresAreLocal(off: u64, fifo: bool, f: Fields, page: u64, pages: set<u64>)
    requires InMemory(page, |f.m|) && TailStorable(off, fifo, f) && page in pages
    requires fifo && f.tail != 0 ==> Home(off, f.tail) in pages
    ensures var m' := AddStores(off, fifo, f, page).m;
            ChangedOnlyIn(f.m, m', pages) && forall j | page + 8 <= j < page + 12 :: m'[j] == 0
  {
    if !fifo {
      StoredAfterClearing(f.m, page, page, f.head, pages);
    } else if f.tail != 0 {
      StoredAfterClearing(f.m, page, Home(off, f.tail), page, pages);
    } else {
      ClearedStaysInPage(f.m, page);
    }
  }

  /** A new page is pushed. */
  lemma AddPushes(off: u64, fifo: bool, f: Fields, s: seq<u64>, page: u64)
    requires Represents(off, fifo, f, s) && TailStorable(off, fifo, f)
    requires Frame(page, |f.m|) && Home(off, page) == page && Elsewhere(off, s, page)
    ensures Represents(off, fifo, AddStores(off, fifo, f, page), Push(fifo, s, page))
  {
    EndsOfList(off, fifo, f, s);
    var f' := AddStores(off, fifo, f, page);
    if fifo && s != [] {
      ClearedThenAppended(f.m, Home(off, f.tail), page, page);
      hide Cleared, StorePtr, LoadPtr, Linked, Elsewhere, Appended, Home;
      PushBack(off, f.m, f'.m, f.head, s, page);
    } else {
      assert s == [] ==> f.head == 0 && s + [page] == [page] + s;
      ClearedThenStored(f.m, page, f.head);
      ClearedRedirects(f.m, page);
      hide Cleared, StorePtr, LoadPtr, Linked, Elsewhere, Redirected, Home;
      PushFront(off, f.m, f'.m, f.head, s, page);
    }
  }

  /**
   * The stores of one turn of addRegion push the page if and only if it is neither the null page nor one
   * on which a node already lies.
   */
  lemma AddPushesIff(off: u64, fifo: bool, f: Fields, s: seq<u64>, page: u64)
    requires Represents(off, fifo, f, s) && InMemory(page, |f.m|) && MapFits(off, |f.m|)
    ensures TailStorable(off, fifo, f) && Home(off, page) == page
    ensures Represents(off, fifo, AddStores(off, fifo, f, page), Push(fifo, s, page))
       <==> page != 0 && page !in Homes(off, s)
  {
    EndsOfList(off, fifo, f, s);
    ElsewhereMeans(off, s, page);
    if page != 0 && page !in Homes(off, s) {
      AddPushes(off, fifo, f, s, page);
    } else {
      hide StorePtr, LoadPtr, Cleared;
      NotPushed(off, fifo, s, page, AddStores(off, fifo, f, page));
    }
  }

  /**
   * Adding a page on which the node s[k] already lies: FIFO cuts the list behind it, unless it is the last
   * node; in that case, and under LIFO, the list becomes endless.
   */
  lemma AddListedBreaks(off: u64, fifo: bool, f: Fields, s: seq<u64>, k: nat, page: u64)
    requires Represents(off, fifo, f, s) && MapFits(off, |f.m|)
    requires k < |s| && Frame(page, |f.m|) && Home(off, s[k]) == page
    ensures TailStorable(off, fifo, f)
    ensures var f1 := AddStores(off, fifo, f, page);
            if fifo && k + 1 < |s| then Linked(off, f1.m, f1.head, s[..k + 1]) else Endless(off, f1)
  {
    EndsOfList(off, fifo, f, s);
    NextNode(off, f.m, f.head, s, 0);
    var f1 := AddStores(off, fifo, f, page);
    assert Home(off, page) == page;
    if fifo && k + 1 < |s| {
      AddCuts(off, f, s, k, page);
    } else {
      ClearedThenStored(f.m, page, if fifo then page else f.head);
      hide Cleared, StorePtr, LoadPtr, Redirected, Endless;
      if fifo {
        hide Linked;
        RingIsEndless(off, f.m, f1, f.head, s, k, page, k, 0);
      } else {
        hide Linked;
        RingIsEndless(off, f.m, f1, f.head, s, k, f.head, 0, k);
      }
    }
  }

  lemma AddCuts(off: u64, f: Fields, s: seq<u64>, k: nat, page: u64)
    requires Represents(off, true, f, s) && TailStorable(off, true, f) && f.tail != 0
    requires k + 1 < |s| && Frame(page, |f.m|) && Home(off, s[k]) == page
    ensures var f1 := AddStores(off, true, f, page); Linked(off, f1.m, f1.head, s[..k + 1])
  {
    NextNode(off, f.m, f.head, s, |s| - 1);
    var a, m' := Home(off, f.tail), AddStores(off, true, f, page).m;
    assert a != page;
    ClearedThenAppended(f.m, a, page, page);
    hide Cleared, StorePtr, LoadPtr;
    forall i | 0 <= i < k
      ensures LoadPtr(m', Home(off, s[i])) == LoadPtr(f.m, Home(off, s[i]))
    {
      NextNode(off, f.m, f.head, s, i);
    }
    hide Home, Linked;
    ChainEndsAt(off, f.m, m', f.head, s, k);
  }

  const TWO_PAGES: Fields := Fields(StorePtr(seq(0x3000, _ => 0), 0x1000, 0x2000), 0x1000, 0x2000)

  lemma TwoPages()
    ensures Represents(0, true, TWO_PAGES, [0x1000, 0x2000])
  {
    var m: seq<byte> := seq(0x3000, _ => 0);
    StoreRedirects(m, 0x1000, 0x2000);
    ZeroPointer(0x3000, 0x2000);
    hide StorePtr, LoadPtr;
    assert InMemory(0x1000, 0x3000) && InMemory(0x2000, 0x3000);
  }

  lemma ZeroPointer(size: nat, p: nat)
    requires p + 8 <= size
    ensures LoadPtr(seq(size, _ => 0), p) == 0
  {
    ZerosDenoteZero(8);
    var m: seq<byte> := seq(size, _ => 0);
    assert m[p..p + 8] == seq(8, _ => 0);
  }

  /**
   * An instance: with 0x1000 and 0x2000 free, adding the region of 0x1000 once more leaves 0x1000 alone in
   * a FIFO list; a LIFO list of one page, added once more, never ends.
   */
  lemma AddingAgainBreaksList()
    ensures Represents(0, true, TWO_PAGES, [0x1000, 0x2000]) && Represents(0, false, ONE_PAGE, [0x1000])
    ensures var f1 := AddStores(0, true, TWO_PAGES, 0x1000); Linked(0, f1.m, f1.head, [0x1000])
    ensures Endless(0, AddStores(0, false, ONE_PAGE, 0x1000))
  {
    TwoPages();
    AddListedBreaks(0, true, TWO_PAGES, [0x1000, 0x2000], 0, 0x1000);
    assert [0x1000, 0x2000][..1] == [0x1000];
    OnePage(0, false);
    AddListedBreaks(0, false, ONE_PAGE, [0x1000], 0, 0x1000);
  }
}
