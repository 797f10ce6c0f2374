/**
 * The intrusive free list: a chain of addresses, each stored in the first bytes of a free page. An
 * address may be a physical one or lie in the direct map, where the same bytes appear a second time.
 */
module FreeList {
  import opened MachineWords
  import opened RawMemory

  const PAGE_SIZE: u64 := 4096

  function PageOf(a: nat): nat {
    a - a % PAGE_SIZE
  }

  /** An aligned page that lies in a memory of the given size; it may be the null page. */
  predicate InMemory(p: nat, limit: nat) {
    p % PAGE_SIZE == 0 && p + PAGE_SIZE <= limit
  }

  predicate Frame(p: nat, limit: nat) {
    0 < p && InMemory(p, limit)
  }

  /** Where the bytes at an address lie, for a direct map at the given offset; offset 0 stands for no map. */
  function Home(off: u64, a: u64): u64 {
    if off <= a then a - off else a
  }

  /** The map is page-aligned, lies above the memory and does not wrap. */
  predicate MapFits(off: u64, limit: nat) {
    off == 0 || (off % PAGE_SIZE == 0 && limit <= off <= TWO64 - limit)
  }

  ghost predicate NoDup(s: seq<u64>) {
    forall i, j | 0 <= i < j < |s| :: s[i] != s[j]
  }

  function Elems(s: seq<u64>): set<u64> {
    set p | p in s
  }

  /** The pages in which the nodes of a list lie. */
  function Homes(off: u64, s: seq<u64>): set<u64> {
    set p | p in s :: Home(off, p)
  }

  /** The i-th node of the list, or the null pointer past its end. */
  function NodeAt(s: seq<u64>, i: nat): u64 {
    if i < |s| then s[i] else 0
  }

  function LastOrNull(s: seq<u64>): u64 {
    if s == [] then 0 else s[|s| - 1]
  }

  ghost predicate Nodes(off: u64, s: seq<u64>, limit: nat) {
    forall i | 0 <= i < |s| :: s[i] != 0 && InMemory(Home(off, s[i]), limit)
  }

  /** No two nodes share a page. */
  ghost predicate Apart(off: u64, s: seq<u64>) {
    forall i, j | 0 <= i < j < |s| :: Home(off, s[i]) != Home(off, s[j])
  }

  /** Following next pointers from head visits exactly the nodes of s, in order, and then null. */
  ghost predicate Linked(off: u64, m: seq<byte>, head: u64, s: seq<u64>) {
    && Nodes(off, s, |m|)
    && Apart(off, s)
    && head == NodeAt(s, 0)
    && forall i {:trigger LoadPtr(m, Home(off, s[i]))} | 0 <= i < |s| :: LoadPtr(m, Home(off, s[i])) == NodeAt(s, i + 1)
  }

  lemma NextNode(off: u64, m: seq<byte>, head: u64, s: seq<u64>, i: nat)
    requires Linked(off, m, head, s) && i < |s|
    ensures s[i] != 0 && InMemory(Home(off, s[i]), |m|)
    ensures LoadPtr(m, Home(off, s[i])) == NodeAt(s, i + 1)
  {
  }

  lemma NullPastTheEnd(off: u64, s: seq<u64>, limit: nat, i: nat)
    requires Nodes(off, s, limit)
    ensures NodeAt(s, i) == 0 <==> i >= |s|
    ensures LastOrNull(s) == 0 <==> s == []
  {
  }

  lemma InHomes(off: u64, s: seq<u64>, i: nat)
    requires i < |s|
    ensures Home(off, s[i]) in Homes(off, s) && s[i] in s
  {
  }

  /** Memory and head determine the list: a chain denotes one sequence of pages. */
  lemma {:induction false} LinkedIsUnique(off: u64, m: seq<byte>, head: u64, s: seq<u64>, t: seq<u64>)
    requires Linked(off, m, head, s) && Linked(off, m, head, t)
    ensures s == t
  {
    hide LoadPtr, Home, InMemory;
    var k := 0;
    while k < |s| && k < |t|
      invariant k <= |s| && k <= |t|
      invariant s[..k] == t[..k] && NodeAt(s, k) == NodeAt(t, k)
    {
      NextNode(off, m, head, s, k);
      NextNode(off, m, head, t, k);
      k := k + 1;
    }
    NullPastTheEnd(off, s, |m|, k);
    NullPastTheEnd(off, t, |m|, k);
  }

  lemma PopFront(off: u64, m: seq<byte>, head: u64, s: seq<u64>)
    requires Linked(off, m, head, s) && s != []
    ensures Linked(off, m, LoadPtr(m, Home(off, head)), s[1..])
  {
    hide LoadPtr, Home, InMemory;
    NextNode(off, m, head, s, 0);
    forall i | 0 <= i < |s[1..]|
      ensures LoadPtr(m, Home(off, s[1..][i])) == NodeAt(s[1..], i + 1)
    {
      NextNode(off, m, head, s, i + 1);
    }
  }

  /** m' is m with the pointer of page a set to v and the pointers of all other pages kept. */
  ghost predicate Redirected(m: seq<byte>, m': seq<byte>, a: u64, v: u64) {
    && |m'| == |m|
    && LoadPtr(m', a) == v
    && forall q: u64 {:trigger LoadPtr(m', q)} :: q % PAGE_SIZE == 0 && q != a ==> LoadPtr(m', q) == LoadPtr(m, q)
  }

  lemma StoreRedirects(m: seq<byte>, a: u64, v: u64)
    requires InMemory(a, |m|)
    ensures Redirected(m, StorePtr(m, a, v), a, v)
  {
    StoreThenLoad(m, a, v, a);
    forall q: u64 | q % PAGE_SIZE == 0 && q != a
      ensures LoadPtr(StorePtr(m, a, v), q) == LoadPtr(m, q)
    {
      StoreThenLoad(m, a, v, q);
    }
  }

  /** No node of s lies on the page of the given address. */
  ghost predicate Elsewhere(off: u64, s: seq<u64>, a: u64) {
    forall i | 0 <= i < |s| :: Home(off, s[i]) != Home(off, a)
  }

  /** Writing the old head into a new page and making it the head puts it in front. */
  lemma PushFront(off: u64, m: seq<byte>, m': seq<byte>, head: u64, s: seq<u64>, p: u64)
    requires Linked(off, m, head, s) && p != 0 && InMemory(Home(off, p), |m|) && Elsewhere(off, s, p)
    requires Redirected(m, m', Home(off, p), head)
    ensures Linked(off, m', p, [p] + s)
  {
    hide LoadPtr, Home;
    var s' := [p] + s;
    forall i | 0 <= i < |s'|
      ensures LoadPtr(m', Home(off, s'[i])) == NodeAt(s', i + 1)
    {
      if i > 0 {
        NextNode(off, m, head, s, i - 1);
      }
    }
  }

  /** m' is m with page a pointing to v, page b to null, and the pointers of all other pages kept. */
  ghost predicate Appended(m: seq<byte>, m': seq<byte>, a: u64, v: u64, b: u64) {
    && |m'| == |m|
    && LoadPtr(m', a) == v && LoadPtr(m', b) == 0
    && forall q: u64 {:trigger LoadPtr(m', q)} ::
         q % PAGE_SIZE == 0 && q != a && q != b ==> LoadPtr(m', q) == LoadPtr(m, q)
  }

  /** Making a page that points to null the successor of the last node appends it. */
  lemma PushBack(off: u64, m: seq<byte>, m': seq<byte>, head: u64, s: seq<u64>, p: u64)
    requires Linked(off, m, head, s) && s != [] && p != 0 && InMemory(Home(off, p), |m|) && Elsewhere(off, s, p)
    requires Appended(m, m', Home(off, LastOrNull(s)), p, Home(off, p))
    ensures Linked(off, m', head, s + [p])
  {
    hide LoadPtr, Home;
    var s' := s + [p];
    forall i | 0 <= i < |s'|
      ensures LoadPtr(m', Home(off, s'[i])) == NodeAt(s', i + 1)
    {
      if i < |s| {
        NextNode(off, m, head, s, i);
      }
    }
  }

  /** Bypassing the node after the first k removes that node. */
  lemma Unlink(off: u64, m: seq<byte>, m': seq<byte>, head: u64, s: seq<u64>, k: nat)
    requires Linked(off, m, head, s) && 0 < k < |s|
    requires Redirected(m, m', Home(off, s[k - 1]), LoadPtr(m, Home(off, s[k])))
    ensures Linked(off, m', head, s[..k] + s[k + 1..])
  {
    hide LoadPtr, Home;
    var s' := s[..k] + s[k + 1..];
    NextNode(off, m, head, s, k);
    forall i | 0 <= i < |s'|
      ensures LoadPtr(m', Home(off, s'[i])) == NodeAt(s', i + 1)
    {
      var j := if i < k then i else i + 1;
      assert s'[i] == s[j];
      NextNode(off, m, head, s, j);
    }
  }

  // ----- what writes leave alone

  /** The memories differ only inside the listed pages. */
  ghost predicate ChangedOnlyIn(m: seq<byte>, m': seq<byte>, pages: set<u64>) {
    |m'| == |m| && forall j | 0 <= j < |m| && PageOf(j) !in pages :: m'[j] == m[j]
  }

  /** The memories agree on every byte of the listed pages. */
  ghost predicate AgreeOn(m: seq<byte>, m': seq<byte>, pages: set<u64>) {
    |m'| == |m| && forall j | 0 <= j < |m| && PageOf(j) in pages :: m'[j] == m[j]
  }

  lemma PointerAgrees(m: seq<byte>, m': seq<byte>, p: u64)
    requires InMemory(p, |m|) && AgreeOn(m, m', {p})
    ensures LoadPtr(m', p) == LoadPtr(m, p)
  {
    assert m'[p..p + 8] == m[p..p + 8] by {
      forall j | p <= j < p + 8 ensures m'[j] == m[j] {
        assert PageOf(j) == p;
      }
    }
  }

  /** Non-interference: writes that avoid the free pages leave the list as it was. */
  lemma WritesElsewhereKeepList(off: u64, m: seq<byte>, m': seq<byte>, head: u64, s: seq<u64>)
    requires Linked(off, m, head, s) && AgreeOn(m, m', Homes(off, s))
    ensures Linked(off, m', head, s)
  {
    hide LoadPtr, Home;
    forall i | 0 <= i < |s|
      ensures LoadPtr(m', Home(off, s[i])) == NodeAt(s, i + 1)
    {
      NextNode(off, m, head, s, i);
      InHomes(off, s, i);
      PointerAgrees(m, m', Home(off, s[i]));
    }
  }

  /** A write inside one page changes no other page. */
  lemma WriteStaysInPage(m: seq<byte>, p: u64, a: nat, b: seq<byte>)
    requires InMemory(p, |m|) && p <= a && a + |b| <= p + PAGE_SIZE
    ensures ChangedOnlyIn(m, Written(m, a, b), {p})
  {
    var m' := Written(m, a, b);
    forall j | 0 <= j < |m| && PageOf(j) != p
      ensures m'[j] == m[j]
    {
      assert j < p || p + PAGE_SIZE <= j;
    }
  }

  lemma NoDupCons(p: u64, s: seq<u64>)
    requires NoDup(s) && p !in s
    ensures NoDup([p] + s) && NoDup(s + [p])
  {
  }

  lemma ChangesElsewhere(off: u64, m: seq<byte>, m': seq<byte>, a: u64, s: seq<u64>)
    requires ChangedOnlyIn(m, m', {Home(off, a)}) && Elsewhere(off, s, a)
    ensures AgreeOn(m, m', Homes(off, s))
  {
    hide Home;
    ElsewhereMeans(off, s, a);
  }

  /** A page is elsewhere exactly when it is none of the list's pages. */
  lemma ElsewhereMeans(off: u64, s: seq<u64>, a: u64)
    ensures Elsewhere(off, s, a) <==> Home(off, a) !in Homes(off, s)
  {
    hide Home;
    if Elsewhere(off, s, a) {
      forall p | p in s
        ensures Home(off, p) != Home(off, a)
      {
        var i :| 0 <= i < |s| && s[i] == p;
      }
    }
    if Home(off, a) !in Homes(off, s) {
      forall i | 0 <= i < |s|
        ensures Home(off, s[i]) != Home(off, a)
      {
        InHomes(off, s, i);
      }
    }
  }

  /** The memories differ only in the next pointers of the listed pages. */
  ghost predicate ChangedOnlyLinks(m: seq<byte>, m': seq<byte>, pages: set<u64>) {
    |m'| == |m| && forall j | 0 <= j < |m| && (PageOf(j) !in pages || j % PAGE_SIZE >= 8) :: m'[j] == m[j]
  }

  /** The memories differ only inside page p and in the next pointers of the listed pages. */
  ghost predicate ChangedOnlyLinksAnd(m: seq<byte>, m': seq<byte>, pages: set<u64>, p: u64) {
    |m'| == |m| &&
    forall j | 0 <= j < |m| && PageOf(j) != p && (PageOf(j) !in pages || j % PAGE_SIZE >= 8) :: m'[j] == m[j]
  }

  /** The memory with one page cleared. */
  function Zeroed(m: seq<byte>, p: nat): (r: seq<byte>)
    ensures |r| == |m|
  {
    seq(|m|, j requires 0 <= j < |m| => if p <= j < p + PAGE_SIZE then 0 else m[j])
  }

  lemma ZeroingStaysInPage(m: seq<byte>, p: u64)
    requires InMemory(p, |m|)
    ensures ChangedOnlyIn(m, Zeroed(m, p), {p})
  {
    forall j | 0 <= j < |m| && PageOf(j) != p
      ensures Zeroed(m, p)[j] == m[j]
    {
      assert j < p || p + PAGE_SIZE <= j;
    }
  }

  /** Clearing a page and then linking it changes, outside that page, next pointers only. */
  lemma ZeroedThenLinked(m: seq<byte>, m': seq<byte>, pages: set<u64>, p: u64)
    requires InMemory(p, |m|) && ChangedOnlyLinks(Zeroed(m, p), m', pages)
    ensures ChangedOnlyLinksAnd(m, m', pages, p)
    ensures forall j | p + 8 <= j < p + PAGE_SIZE :: m'[j] == 0
  {
    ZeroingStaysInPage(m, p);
    forall j | p + 8 <= j < p + PAGE_SIZE
      ensures m'[j] == 0
    {
      assert m'[j] == Zeroed(m, p)[j];
    }
  }

  /** Writing the next pointer of a page changes nothing else. */
  lemma PointerWriteIsLocal(m: seq<byte>, p: u64, v: u64)
    requires InMemory(p, |m|)
    ensures Redirected(m, StorePtr(m, p, v), p, v) && ChangedOnlyLinks(m, StorePtr(m, p, v), {p})
  {
    StoreRedirects(m, p, v);
    var m' := StorePtr(m, p, v);
    forall j | 0 <= j < |m| && (PageOf(j) != p || j % PAGE_SIZE >= 8)
      ensures m'[j] == m[j]
    {
      assert j < p || p + 8 <= j;
    }
  }

  lemma LinkChangesGrow(m: seq<byte>, m1: seq<byte>, m2: seq<byte>, a: set<u64>, b: set<u64>)
    requires ChangedOnlyLinks(m, m1, a) && ChangedOnlyLinks(m1, m2, b) && b <= a
    ensures ChangedOnlyLinks(m, m2, a)
  {
  }

  lemma LinkChangesWiden(m: seq<byte>, m': seq<byte>, a: set<u64>, b: set<u64>)
    requires ChangedOnlyLinks(m, m', a) && a <= b
    ensures ChangedOnlyLinks(m, m', b)
  {
  }

  lemma ChangesGrow(m: seq<byte>, m1: seq<byte>, m2: seq<byte>, a: set<u64>, b: set<u64>)
    requires ChangedOnlyIn(m, m1, a) && ChangedOnlyIn(m1, m2, b) && a <= b
    ensures ChangedOnlyIn(m, m2, b)
  {
  }

  lemma NothingChanged(m: seq<byte>, pages: set<u64>)
    ensures ChangedOnlyLinks(m, m, pages)
  {
  }

  // ----- counting pages

  /** Distinct pages fit side by side, so there are at most limit / PAGE_SIZE of them. */
  lemma {:induction false} FrameCount(s: set<u64>, limit: nat)
    requires limit <= TWO64 && forall p | p in s :: InMemory(p, limit)
    ensures |s| * PAGE_SIZE <= limit
    decreases limit
  {
    if limit < PAGE_SIZE {
      assert s == {};
    } else {
      var top := PageOf(limit) - PAGE_SIZE;
      var below := s - {top};
      FrameCount(below, limit - PAGE_SIZE);
      assert |s| <= |below| + 1 by {
        assert s <= below + {top};
        if top in s {
          assert s == below + {top};
        } else {
          assert s == below;
        }
      }
    }
  }

  /** As many pages as nodes. */
  lemma {:induction false} HomesCount(off: u64, s: seq<u64>)
    requires Apart(off, s)
    ensures |Homes(off, s)| == |s|
  {
    hide Home;
    if s != [] {
      assert Apart(off, s[1..]);
      HomesCount(off, s[1..]);
      HomesOfFirst(off, s);
      ElsewhereMeans(off, s[1..], s[0]);
    }
  }

  lemma HomesOfFirst(off: u64, s: seq<u64>)
    requires s != []
    ensures Homes(off, s) == {Home(off, s[0])} + Homes(off, s[1..])
  {
    hide Home;
    forall p | p in s
      ensures p == s[0] || p in s[1..]
    {
    }
    assert s[0] in s && forall p | p in s[1..] :: p in s;
  }

  lemma HomesPush(off: u64, s: seq<u64>, p: u64)
    ensures Homes(off, s + [p]) == Homes(off, s) + {Home(off, p)}
    ensures Homes(off, [p] + s) == Homes(off, s) + {Home(off, p)}
  {
    hide Home;
    assert forall q :: q in s + [p] <==> q in s || q == p;
    assert forall q :: q in [p] + s <==> q in s || q == p;
  }

  /** A list of nodes is short enough for its length, and one more, to be a 64-bit number. */
  lemma ListFits(off: u64, s: seq<u64>, limit: nat)
    requires limit <= TWO64 && Nodes(off, s, limit) && Apart(off, s)
    ensures |s| * PAGE_SIZE <= limit && |s| + 1 < TWO64
  {
    HomesCount(off, s);
    FrameCount(Homes(off, s), limit);
  }

  /** Distinct pages of memory, listed under their own addresses, are nodes in different places. */
  lemma FramesAreNodes(off: u64, s: seq<u64>, limit: nat)
    requires MapFits(off, limit) && forall p | p in s :: Frame(p, limit)
    ensures Nodes(off, s, limit) && (NoDup(s) <==> Apart(off, s)) && Homes(off, s) == Elems(s)
  {
    assert forall p | p in s :: Home(off, p) == p;
  }
}
