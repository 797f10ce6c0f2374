/** strtok: the destructive tokenizer that remembers where it stopped. */
module Tokenizer {
  import opened MachineWords
  import opened CString

  /** The delimiters that a string denotes; NUL is never one. */
  type Delimiters = d: set<byte> | 0 !in d

  function Bytes(t: seq<byte>): (d: set<byte>) {
    set b | b in t
  }

  ghost function DelimitersAt(m: seq<byte>, p: nat): (d: Delimiters)
    requires IsString(m, p)
    ensures d == Bytes(Text(m, p))
  {
    TextIsNonZero(m, p);
    Bytes(Text(m, p))
  }

  // ----- scans

  /** The first index from p on that holds no delimiter. */
  function SkipIn(m: seq<byte>, p: nat, delims: Delimiters): (r: nat)
    requires p <= |m|
    ensures p <= r <= |m|
    decreases |m| - p
  {
    if p < |m| && m[p] in delims then SkipIn(m, p + 1, delims) else p
  }

  /** The first index from p on that holds a delimiter or NUL. */
  function SkipOut(m: seq<byte>, p: nat, delims: Delimiters): (r: nat)
    requires p <= |m|
    ensures p <= r <= |m|
    decreases |m| - p
  {
    if p < |m| && m[p] != 0 && m[p] !in delims then SkipOut(m, p + 1, delims) else p
  }

  lemma {:induction false} SkipInFacts(m: seq<byte>, p: nat, delims: Delimiters)
    requires p <= |m|
    ensures var r := SkipIn(m, p, delims);
            (forall i | p <= i < r :: m[i] in delims) && (r < |m| ==> m[r] !in delims)
    decreases |m| - p
  {
    if p < |m| && m[p] in delims {
      SkipInFacts(m, p + 1, delims);
    }
  }

  lemma {:induction false} SkipOutFacts(m: seq<byte>, p: nat, delims: Delimiters)
    requires p <= |m|
    ensures var r := SkipOut(m, p, delims);
            (forall i | p <= i < r :: m[i] != 0 && m[i] !in delims) && (r < |m| ==> m[r] == 0 || m[r] in delims)
    decreases |m| - p
  {
    if p < |m| && m[p] != 0 && m[p] !in delims {
      SkipOutFacts(m, p + 1, delims);
    }
  }

  /** The delimiter-free stretches of the string at p, as half-open intervals in increasing order. */
  function Runs(m: seq<byte>, p: nat, delims: Delimiters): seq<(nat, nat)>
    requires p <= |m|
    decreases |m| - p, 1
  {
    var b := SkipIn(m, p, delims);
    if b == |m| || m[b] == 0 then []
    else
      var e := SkipOut(m, b, delims);
      [(b, e)] + RunsAfter(m, e, delims)
  }

  /** The runs behind one that ends at e. */
  function RunsAfter(m: seq<byte>, e: nat, delims: Delimiters): seq<(nat, nat)>
    requires e <= |m|
    decreases |m| - e, 0
  {
    if e < |m| && m[e] != 0 then Runs(m, e + 1, delims) else []
  }

  /** A maximal non-empty stretch without delimiters of the text that starts at s and ends at end. */
  ghost predicate MaximalRun(m: seq<byte>, s: nat, end: nat, delims: set<byte>, b: nat, e: nat) {
    && s <= b < e <= end < |m|
    && (forall i | b <= i < e :: m[i] !in delims)
    && (b == s || m[b - 1] in delims)
    && (e == end || m[e] in delims)
  }

  /** From any point that starts a run or follows a delimiter, Runs lists exactly the remaining maximal runs, in order. */
  lemma {:induction false} RunsAreMaximal(m: seq<byte>, s: nat, end: nat, p: nat, delims: Delimiters)
    requires s <= p <= end < |m| && m[end] == 0 && forall i | s <= i < end :: m[i] != 0
    requires p == s || m[p - 1] in delims
    ensures forall b: nat, e: nat :: (b, e) in Runs(m, p, delims) <==> p <= b && MaximalRun(m, s, end, delims, b, e)
    ensures forall j, k | 0 <= j < k < |Runs(m, p, delims)| :: Runs(m, p, delims)[j].1 < Runs(m, p, delims)[k].0
    decreases end - p
  {
    var b := SkipIn(m, p, delims);
    SkipInFacts(m, p, delims);
    SkipOutFacts(m, b, delims);
    assert m[end] == 0;
    if m[b] == 0 {
      forall b': nat, e: nat | p <= b'
        ensures !MaximalRun(m, s, end, delims, b', e)
      {
        assert b' < end ==> m[b'] in delims;
      }
    } else {
      var e := SkipOut(m, b, delims);
      FirstRun(m, s, end, p, delims, b, e);
      if m[e] != 0 {
        RunsAreMaximal(m, s, end, e + 1, delims);
        RunsSplit(m, s, end, p, delims, b, e);
      }
    }
  }

  /** Between p and the end of its run there is only the run found first. */
  lemma FirstRun(m: seq<byte>, s: nat, end: nat, p: nat, delims: Delimiters, b: nat, e: nat)
    requires s <= p <= b < e <= end < |m| && m[end] == 0
    requires p == s || m[p - 1] in delims
    requires forall i | p <= i < b :: m[i] in delims
    requires forall i | b <= i < e :: m[i] !in delims
    requires e == end || m[e] in delims
    ensures forall b': nat, e': nat :: MaximalRun(m, s, end, delims, b', e') && p <= b' <= e <==> b' == b && e' == e
  {
    assert MaximalRun(m, s, end, delims, b, e) by {
      assert b > p ==> m[b - 1] in delims;
    }
    forall b': nat, e': nat | MaximalRun(m, s, end, delims, b', e') && p <= b' <= e
      ensures b' == b && e' == e
    {
      assert m[b'] !in delims;
      assert b' > s ==> m[b' - 1] in delims;
      assert e' < end ==> m[e'] in delims;
    }
  }

  lemma RunsSplit(m: seq<byte>, s: nat, end: nat, p: nat, delims: Delimiters, b: nat, e: nat)
    requires p <= b < e < |m| && Runs(m, p, delims) == [(b, e)] + Runs(m, e + 1, delims)
    requires forall b': nat, e': nat :: (b', e') in Runs(m, e + 1, delims) <==> e + 1 <= b' && MaximalRun(m, s, end, delims, b', e')
    requires forall b': nat, e': nat :: MaximalRun(m, s, end, delims, b', e') && p <= b' <= e <==> b' == b && e' == e
    ensures forall b': nat, e': nat :: (b', e') in Runs(m, p, delims) <==> p <= b' && MaximalRun(m, s, end, delims, b', e')
    ensures forall k | 0 < k < |Runs(m, p, delims)| :: e < Runs(m, p, delims)[k].0
  {
    forall k | 0 < k < |Runs(m, p, delims)|
      ensures e < Runs(m, p, delims)[k].0
    {
      var run := Runs(m, e + 1, delims)[k - 1];
      assert run in Runs(m, e + 1, delims);
      assert (run.0, run.1) in Runs(m, e + 1, delims);
    }
  }

  /** The two memories agree from index p on. */
  ghost predicate AgreeFrom(m: seq<byte>, m': seq<byte>, p: nat) {
    |m| == |m'| && p <= |m| && m[p..] == m'[p..]
  }

  lemma AgreeLater(m: seq<byte>, m': seq<byte>, p: nat, q: nat)
    requires AgreeFrom(m, m', p) && p <= q <= |m|
    ensures AgreeFrom(m, m', q) && (q < |m| ==> m[q] == m'[q])
  {
    assert m[q..] == m[p..][q - p..];
    assert m'[q..] == m'[p..][q - p..];
    assert q < |m| ==> m[q] == m[q..][0] && m'[q] == m'[q..][0];
  }

  lemma {:induction false} ScansAgree(m: seq<byte>, m': seq<byte>, p: nat, delims: Delimiters)
    requires AgreeFrom(m, m', p)
    ensures SkipIn(m, p, delims) == SkipIn(m', p, delims) && SkipOut(m, p, delims) == SkipOut(m', p, delims)
    decreases |m| - p
  {
    if p < |m| {
      AgreeLater(m, m', p, p);
      AgreeLater(m, m', p, p + 1);
      ScansAgree(m, m', p + 1, delims);
    }
  }

  /** Runs depends only on the memory from p on. */
  lemma {:induction false} RunsAgree(m: seq<byte>, m': seq<byte>, p: nat, delims: Delimiters)
    requires AgreeFrom(m, m', p)
    ensures Runs(m, p, delims) == Runs(m', p, delims)
    decreases |m| - p, 1
  {
    var b := SkipIn(m, p, delims);
    ScansAgree(m, m', p, delims);
    AgreeLater(m, m', p, b);
    if b < |m| && m[b] != 0 {
      var e := SkipOut(m, b, delims);
      ScansAgree(m, m', b, delims);
      AgreeLater(m, m', b, e);
      RunsAfterAgree(m, m', e, delims);
    }
  }

  lemma {:induction false} RunsAfterAgree(m: seq<byte>, m': seq<byte>, e: nat, delims: Delimiters)
    requires AgreeFrom(m, m', e)
    ensures RunsAfter(m, e, delims) == RunsAfter(m', e, delims)
    decreases |m| - e, 0
  {
    AgreeLater(m, m', e, e);
    if e < |m| {
      AgreeLater(m, m', e, e + 1);
      RunsAgree(m, m', e + 1, delims);
    }
  }

  // ----- the library's scanning functions

  /** The inner loops of strspn and strpbrk: is the byte one of the string's? */
  method InString(m: array<byte>, c: byte, s: nat) returns (found: bool)
    requires IsString(m[..], s) && c != 0
    ensures found <==> exists i :: s <= i < StrEnd(m[..], s) && m[i] == c
  {
    TextIsNonZero(m[..], s);
    assert forall i | s <= i < StrEnd(m[..], s) :: m[i] == m[..][i] != 0;
    ghost var end := StrEnd(m[..], s);
    assert m[end] == m[..][end] == 0;
    var a: nat := s;
    while m[a] != 0 && m[a] != c
      invariant s <= a <= end < m.Length
      invariant forall i | s <= i < a :: m[i] != c
      decreases m.Length - a
    {
      a := a + 1;
    }
    found := m[a] != 0;
  }

  /** The delimiters are the bytes before the NUL of the delimiter string. */
  lemma DelimitersAreBytes(m: seq<byte>, p: nat)
    requires IsString(m, p)
    ensures forall c: byte :: c in DelimitersAt(m, p) <==> exists i :: p <= i < StrEnd(m, p) && m[i] == c
  {
    var t := Text(m, p);
    forall c: byte
      ensures c in t <==> exists i :: p <= i < StrEnd(m, p) && m[i] == c
    {
      if i :| p <= i < StrEnd(m, p) && m[i] == c {
        assert t[i - p] == c;
      }
      if c in t {
        var k :| 0 <= k < |t| && t[k] == c;
        assert m[p + k] == c;
      }
    }
  }

  /** The byte stands before the NUL of the string at d. */
  ghost predicate Separates(m: seq<byte>, d: nat, c: byte)
    requires d <= |m|
  {
    exists i :: d <= i < StrEnd(m, d) && m[i] == c
  }

  lemma SeparatorsAre(m: seq<byte>, d: nat)
    requires IsString(m, d)
    ensures forall c: byte :: Separates(m, d, c) <==> c in DelimitersAt(m, d)
  {
    DelimitersAreBytes(m, d);
  }

  /** Scanning a string for its next run stays inside it. */
  lemma ScanStays(m: seq<byte>, s: nat, delims: Delimiters)
    requires IsString(m, s)
    ensures var b := SkipIn(m, s, delims);
            b <= StrEnd(m, s) && IsString(m, b) && SkipOut(m, b, delims) <= StrEnd(m, s)
            && (m[b] == 0 <==> b == StrEnd(m, s))
            && (m[SkipOut(m, b, delims)] == 0 <==> SkipOut(m, b, delims) == StrEnd(m, s))
  {
    TextIsNonZero(m, s);
    SkipInFacts(m, s, delims);
    SkipOutFacts(m, SkipIn(m, s, delims), delims);
    assert m[StrEnd(m, s)] == 0;
    TextSuffix(m, s, SkipIn(m, s, delims));
  }

  /** The two scans, in terms of the bytes of the strings. */
  lemma ScansByBytes(m: seq<byte>, s: nat, accept: nat)
    requires IsString(m, s) && IsString(m, accept)
    ensures var p := SkipIn(m, s, DelimitersAt(m, accept));
            && s <= p <= StrEnd(m, s) < |m| && (p == StrEnd(m, s) || !Separates(m, accept, m[p]))
            && forall i | s <= i < p :: Separates(m, accept, m[i])
    ensures var p := SkipOut(m, s, DelimitersAt(m, accept));
            && s <= p <= StrEnd(m, s) && (m[p] != 0 ==> p < StrEnd(m, s) && Separates(m, accept, m[p]))
            && (m[p] == 0 ==> p == StrEnd(m, s))
            && forall i | s <= i < p :: !Separates(m, accept, m[i])
  {
    var delims := DelimitersAt(m, accept);
    TextIsNonZero(m, s);
    SeparatorsAre(m, accept);
    SkipInFacts(m, s, delims);
    SkipOutFacts(m, s, delims);
    ScanStays(m, s, delims);
    hide Separates, DelimitersAt;
    assert m[StrEnd(m, s)] == 0;
  }

  method Strspn(m: array<byte>, s: nat, accept: nat) returns (n: nat)
    requires IsString(m[..], s) && IsString(m[..], accept)
    ensures n == SkipIn(m[..], s, DelimitersAt(m[..], accept)) - s
    ensures s + n < m.Length && forall i | s <= i < s + n :: Separates(m[..], accept, m[i])
    ensures m[s + n] == 0 || !Separates(m[..], accept, m[s + n])
  {
    ScansByBytes(m[..], s, accept);
    hide Separates;
    ghost var delims := DelimitersAt(m[..], accept);
    var p: nat := s;
    while m[p] != 0
      invariant s <= p && IsString(m[..], p)
      invariant SkipIn(m[..], s, delims) == SkipIn(m[..], p, delims)
      decreases m.Length - p
    {
      DelimitersAreBytes(m[..], accept);
      var known := InString(m, m[p], accept);
      if !known {
        break;
      }
      p := p + 1;
    }
    n := p - s;
  }

  method Strpbrk(m: array<byte>, s: nat, accept: nat) returns (r: Ptr)
    requires IsString(m[..], s) && IsString(m[..], accept)
    ensures var e := SkipOut(m[..], s, DelimitersAt(m[..], accept));
            e < m.Length && r == if m[e] != 0 then At(e) else Null
    ensures r.At? ==> s <= r.addr < StrEnd(m[..], s) && Separates(m[..], accept, m[r.addr])
    ensures forall i | s <= i < (if r.At? then r.addr else StrEnd(m[..], s)) :: !Separates(m[..], accept, m[i])
  {
    ScansByBytes(m[..], s, accept);
    hide Separates;
    ghost var delims := DelimitersAt(m[..], accept);
    var p: nat := s;
    while m[p] != 0
      invariant s <= p && IsString(m[..], p)
      invariant SkipOut(m[..], s, delims) == SkipOut(m[..], p, delims)
      decreases m.Length - p
    {
      DelimitersAreBytes(m[..], accept);
      var known := InString(m, m[p], accept);
      if known {
        return At(p);
      }
      p := p + 1;
    }
    r := Null;
  }

  // ----- one call

  datatype Call = Call(mem: seq<byte>, last: Ptr, result: Ptr)

  /** The effect of one strtok call that resumes at s. */
  function Resume(m: seq<byte>, s: nat, delims: Delimiters): Call
    requires s <= |m|
  {
    var b := SkipIn(m, s, delims);
    if b == |m| || m[b] == 0 then Call(m, Null, Null)
    else
      var e := SkipOut(m, b, delims);
      if e < |m| && m[e] != 0 then Call(m[e := 0], At(e + 1), At(b)) else Call(m, Null, At(b))
  }

  /** A call stays within its string, and what it leaves for the next call is the rest of that string. */
  lemma ResumeAdvances(m: seq<byte>, s: nat, delims: Delimiters)
    requires IsString(m, s)
    ensures var c := Resume(m, s, delims);
            && |c.mem| == |m|
            && (forall i | 0 <= i < |m| && !(s <= i < StrEnd(m, s)) :: c.mem[i] == m[i])
            && (c.last.At? ==> s < c.last.addr <= StrEnd(m, s) && IsString(c.mem, c.last.addr)
                               && StrEnd(c.mem, c.last.addr) == StrEnd(m, s))
  {
    var c, end := Resume(m, s, delims), StrEnd(m, s);
    TextIsNonZero(m, s);
    ScanStays(m, s, delims);
    if c.last.At? {
      EndIsFirstNul(c.mem, c.last.addr, end);
    }
  }

  /** A call leaves a string that does not overlap its text as it was. */
  lemma ResumeKeepsString(m: seq<byte>, s: nat, delims: Delimiters, other: nat)
    requires IsString(m, s) && IsString(m, other)
    requires StrEnd(m, other) < s || StrEnd(m, s) < other
    ensures var c := Resume(m, s, delims);
            IsString(c.mem, other) && StrEnd(c.mem, other) == StrEnd(m, other) && Text(c.mem, other) == Text(m, other)
  {
    var c := Resume(m, s, delims);
    ResumeAdvances(m, s, delims);
    TextIsNonZero(m, other);
    EndIsFirstNul(c.mem, other, StrEnd(m, other));
  }

  /** What a call that resumes in a string finds: nothing, a last token, or a token whose end is overwritten. */
  lemma ResumeCases(m: seq<byte>, s: nat, delims: Delimiters)
    requires IsString(m, s)
    ensures var b := SkipIn(m, s, delims);
            && IsString(m, b)
            && var e := SkipOut(m, b, delims);
            && e < |m|
            && Resume(m, s, delims) ==
               if m[b] == 0 then Call(m, Null, Null)
               else if m[e] == 0 then Call(m, Null, At(b))
               else Call(m[e := 0], At(e + 1), At(b))
  {
    hide SkipIn, SkipOut;
    ScanStays(m, s, delims);
  }

  // ----- the whole run

  /** All tokens of the string at s and the memory they leave behind. */
  function Session(m: seq<byte>, s: nat, delims: Delimiters): (seq<nat>, seq<byte>)
    requires s <= |m|
    decreases |m| - s
  {
    var c := Resume(m, s, delims);
    var (rest, mem) := if c.last.At? then Session(c.mem, c.last.addr, delims) else ([], c.mem);
    ((if c.result.At? then [c.result.addr] else []) + rest, mem)
  }

  /** The effect of one strtok call that resumes wherever it is told, possibly nowhere. */
  function Resumed(m: seq<byte>, from: Ptr, delims: Delimiters): Call {
    if from.At? && from.addr <= |m| then Resume(m, from.addr, delims) else Call(m, Null, Null)
  }

  /** What is still to come when the next call resumes at last. */
  ghost function Remaining(m: seq<byte>, last: Ptr, delims: Delimiters): (seq<nat>, seq<byte>) {
    if last.At? && last.addr <= |m| then Session(m, last.addr, delims) else ([], m)
  }

  /** One call takes the first token off what is still to come. */
  lemma CallTakesToken(m: seq<byte>, from: Ptr, delims: Delimiters, tokens: seq<nat>)
    ensures var c, all := Resumed(m, from, delims), Remaining(m, from, delims);
            var later := Remaining(c.mem, c.last, delims);
            && later.1 == all.1
            && tokens + all.0 == (if c.result.At? then tokens + [c.result.addr] else tokens) + later.0
  {
    var c, all := Resumed(m, from, delims), Remaining(m, from, delims);
    var later := Remaining(c.mem, c.last, delims);
    assert all.0 == (if c.result.At? then [c.result.addr] else []) + later.0;
  }

  class Strtok {
    const m: array<byte>

    /** Where the next call with a null string resumes. */
    var last: Ptr

    constructor (m: array<byte>)
      ensures this.m == m && last == Null
    {
      this.m, last := m, Null;
    }

    method Next(str: Ptr, delim: nat) returns (r: Ptr)
      requires IsString(m[..], delim)
      requires str.At? ==> IsString(m[..], str.addr)
      requires str.Null? && last.At? ==> IsString(m[..], last.addr)
      modifies this, m
      ensures Call(m[..], last, r)
           == Resumed(old(m[..]), if str.Null? then old(last) else str, DelimitersAt(old(m[..]), delim))
    {
      var s := str;
      if s.Null? {
        s := last;
      }
      if s.Null? {
        return Null;
      }
      r := Take(s.addr, delim);
    }

    /** A call that has a string to resume in. */
    method Take(s: nat, delim: nat) returns (r: Ptr)
      requires IsString(m[..], s) && IsString(m[..], delim)
      modifies this, m
      ensures Call(m[..], last, r) == Resume(old(m[..]), s, DelimitersAt(old(m[..]), delim))
    {
      ghost var mem, delims := m[..], DelimitersAt(m[..], delim);
      ResumeCases(mem, s, delims);
      hide StrEnd, Text, SkipIn, SkipOut, DelimitersAt, Resume;
      var skipped := Strspn(m, s, delim);
      var b := s + skipped;
      if m[b] == 0 {
        last := Null;
        return Null;
      }
      var tokenEnd := Strpbrk(m, b, delim);
      CutAt(tokenEnd);
      r := At(b);
    }

    /** Overwrites the end of a token and remembers what follows; a token that ends the string leaves nothing. */
    method CutAt(tokenEnd: Ptr)
      requires tokenEnd.At? ==> tokenEnd.addr < m.Length
      modifies this, m
      ensures (m[..], last) == if tokenEnd.At? then (old(m[..])[tokenEnd.addr := 0], At(tokenEnd.addr + 1)) else (old(m[..]), Null)
    {
      if tokenEnd.At? {
        m[tokenEnd.addr] := 0;
        last := At(tokenEnd.addr + 1);
      } else {
        last := Null;
      }
    }

    /** The calling protocol: one call with the buffer, then null until null comes back. */
    method TokenizeAll(buffer: nat, delim: nat) returns (tokens: seq<nat>, calls: nat)
      requires IsString(m[..], buffer) && IsString(m[..], delim)
      requires StrEnd(m[..], delim) < buffer || StrEnd(m[..], buffer) < delim
      modifies this, m
      ensures (tokens, m[..]) == Session(old(m[..]), buffer, DelimitersAt(old(m[..]), delim))
      ensures SplitAt(old(m[..]), m[..], buffer, delim, tokens)
      ensures calls == |tokens| + 1 && last == Null
    {
      StrtokSplits(m[..], buffer, delim);
      hide Session, Separates, SplitAt;
      ghost var m0, delims := m[..], DelimitersAt(m[..], delim);
      ghost var total := Remaining(m0, At(buffer), delims);
      tokens, calls := [], 1;
      ReadyForNext(m0, At(buffer), delims, buffer, m0, delim);
      CallTakesToken(m0, At(buffer), delims, tokens);
      var r := Next(At(buffer), delim);
      while r.At?
        invariant Ready(m[..], last, buffer, m0, delim)
        invariant r.Null? ==> last.Null?
        invariant calls == |tokens| + 1
        invariant total.1 == Remaining(m[..], last, delims).1
        invariant total.0 == (if r.At? then tokens + [r.addr] else tokens) + Remaining(m[..], last, delims).0
        decreases if last.At? then m.Length - last.addr + 1 else 0, if r.At? then 1 else 0
      {
        tokens := tokens + [r.addr];
        ReadyForNext(m[..], last, delims, buffer, m0, delim);
        CallTakesToken(m[..], last, delims, tokens);
        r := Next(Null, delim);
        calls := calls + 1;
      }
      assert Remaining(m[..], Null, delims).0 == [];
      assert total.0 == tokens;
    }
  }

  /** Between two calls: the delimiters are as at first, and what is left is the rest of the buffer's text. */
  ghost predicate Ready(m: seq<byte>, last: Ptr, buffer: nat, m0: seq<byte>, delim: nat) {
    && |m| == |m0| && buffer < |m0| && delim < |m0|
    && IsString(m, delim) && StrEnd(m, delim) == StrEnd(m0, delim) && Text(m, delim) == Text(m0, delim)
    && (last.At? ==> buffer <= last.addr && IsString(m, last.addr) && StrEnd(m, last.addr) == StrEnd(m0, buffer))
  }

  lemma ReadyForNext(m: seq<byte>, from: Ptr, delims: Delimiters, buffer: nat, m0: seq<byte>, delim: nat)
    requires Ready(m, from, buffer, m0, delim)
    requires StrEnd(m0, delim) < buffer || StrEnd(m0, buffer) < delim
    ensures var c := Resumed(m, from, delims);
            && Ready(c.mem, c.last, buffer, m0, delim)
            && (c.last.At? ==> from.At? && from.addr < c.last.addr)
            && (c.result.Null? ==> c.last.Null?)
            && (from.Null? ==> c.result.Null?)
  {
    if from.At? {
      ResumeAdvances(m, from.addr, delims);
      ResumeKeepsString(m, from.addr, delims, delim);
    }
  }

  // ----- what a whole run yields

  /** The starts of the runs. */
  function Starts(runs: seq<(nat, nat)>): seq<nat> {
    seq(|runs|, k requires 0 <= k < |runs| => runs[k].0)
  }

  /** Memory with NUL written at the end of each run. */
  function Cut(m: seq<byte>, runs: seq<(nat, nat)>): (r: seq<byte>)
    ensures |r| == |m|
    decreases |runs|
  {
    if runs == [] then m
    else
      var e := runs[0].1;
      Cut(if e < |m| then m[e := 0] else m, runs[1..])
  }

  ghost predicate EndsRun(runs: seq<(nat, nat)>, j: nat) {
    exists k | 0 <= k < |runs| :: runs[k].1 == j
  }

  lemma {:induction false} CutPointwise(m: seq<byte>, runs: seq<(nat, nat)>, j: nat)
    requires j < |m|
    ensures Cut(m, runs)[j] == if EndsRun(runs, j) then 0 else m[j]
    decreases |runs|
  {
    if runs != [] {
      var e, rest := runs[0].1, runs[1..];
      CutPointwise(if e < |m| then m[e := 0] else m, rest, j);
      assert EndsRun(runs, j) <==> e == j || EndsRun(rest, j);
    }
  }

  /** A call that leaves nothing for the next one saw the last run, or none. */
  lemma LastRun(m: seq<byte>, s: nat, delims: Delimiters)
    requires IsString(m, s) && Resume(m, s, delims).last.Null?
    ensures Session(m, s, delims) == (Starts(Runs(m, s, delims)), m)
    ensures Cut(m, Runs(m, s, delims)) == m
  {
    ScanStays(m, s, delims);
    var b := SkipIn(m, s, delims);
    if m[b] != 0 {
      var e := SkipOut(m, b, delims);
      assert Runs(m, s, delims) == [(b, e)];
      assert m[e := 0] == m;
      assert Cut(m[e := 0], []) == m;
      assert Starts([(b, e)]) == [b] == [b] + [];
    } else {
      var none: seq<nat> := [];
      assert Session(m, s, delims).0 == none + none == none;
      assert Starts([]) == none;
    }
  }

  /** A call that leaves something for the next one took the first run. */
  lemma FirstRunTaken(m: seq<byte>, s: nat, delims: Delimiters)
    requires s <= |m| && Resume(m, s, delims).last.At?
    ensures var c := Resume(m, s, delims);
            var runs, rest := Runs(m, s, delims), Runs(m, c.last.addr, delims);
            && c.result.At? && |c.mem| == |m| && AgreeFrom(m, c.mem, c.last.addr)
            && Starts(runs) == [c.result.addr] + Starts(rest)
            && Cut(m, runs) == Cut(c.mem, rest)
  {
    var c := Resume(m, s, delims);
    var runs, rest := Runs(m, s, delims), Runs(m, c.last.addr, delims);
    assert rest == RunsAfter(m, c.last.addr - 1, delims);
    assert runs == [(c.result.addr, c.last.addr - 1)] + rest;
    assert runs[1..] == rest;
  }

  lemma {:induction false} SessionFollowsRuns(m: seq<byte>, s: nat, delims: Delimiters)
    requires IsString(m, s)
    ensures Session(m, s, delims) == (Starts(Runs(m, s, delims)), Cut(m, Runs(m, s, delims)))
    decreases |m| - s
  {
    var c := Resume(m, s, delims);
    if c.last.At? {
      ResumeAdvances(m, s, delims);
      FirstRunTaken(m, s, delims);
      RunsAgree(m, c.mem, c.last.addr, delims);
      SessionFollowsRuns(c.mem, c.last.addr, delims);
    } else {
      LastRun(m, s, delims);
    }
  }

  /**
   * Tokenizing a whole string yields exactly its maximal delimiter-free runs in order; in the
   * memory left behind every token reads back intact, and only delimiters that end a run changed.
   */
  lemma StrtokFindsAllRuns(m: seq<byte>, s: nat, delims: Delimiters)
    requires IsString(m, s)
    ensures var (tokens, after) := Session(m, s, delims);
            var runs := Runs(m, s, delims);
            && (forall b: nat, e: nat :: (b, e) in runs <==> MaximalRun(m, s, StrEnd(m, s), delims, b, e))
            && (forall j, k | 0 <= j < k < |runs| :: runs[j].1 < runs[k].0)
            && |tokens| == |runs| && |after| == |m|
            && (forall k | 0 <= k < |runs| :: tokens[k] == runs[k].0 && ReadsBack(m, after, runs[k]))
            && (forall j | 0 <= j < |m| && after[j] != m[j] ::
                  after[j] == 0 && s <= j < StrEnd(m, s) && m[j] in delims && EndsRun(runs, j))
  {
    var runs, end := Runs(m, s, delims), StrEnd(m, s);
    var after := Cut(m, runs);
    SessionFollowsRuns(m, s, delims);
    TextIsNonZero(m, s);
    RunsAreMaximal(m, s, end, s, delims);
    forall k | 0 <= k < |runs|
      ensures ReadsBack(m, after, runs[k])
    {
      TokenSurvives(m, s, delims, k);
    }
    forall j | 0 <= j < |m| && after[j] != m[j]
      ensures after[j] == 0 && s <= j < end && m[j] in delims && EndsRun(runs, j)
    {
      CutPointwise(m, runs, j);
      var k :| 0 <= k < |runs| && runs[k].1 == j;
      assert (runs[k].0, runs[k].1) in runs;
    }
  }

  /** The token at a run's start is, in the memory after, the run's original bytes. */
  ghost predicate ReadsBack(m: seq<byte>, after: seq<byte>, run: (nat, nat)) {
    run.0 <= run.1 <= |m| && run.0 <= |after| && Text(after, run.0) == m[run.0..run.1]
  }

  lemma TokenSurvives(m: seq<byte>, s: nat, delims: Delimiters, k: nat)
    requires IsString(m, s) && k < |Runs(m, s, delims)|
    ensures ReadsBack(m, Cut(m, Runs(m, s, delims)), Runs(m, s, delims)[k])
  {
    var runs, end := Runs(m, s, delims), StrEnd(m, s);
    var after, b, e := Cut(m, runs), runs[k].0, runs[k].1;
    TextIsNonZero(m, s);
    RunsAreMaximal(m, s, end, s, delims);
    assert (b, e) in runs;
    forall i | b <= i < e
      ensures after[i] == m[i]
    {
      forall k' | 0 <= k' < |runs|
        ensures runs[k'].1 != i
      {
        assert (runs[k'].0, runs[k'].1) in runs;
      }
      CutPointwise(m, runs, i);
    }
    CutPointwise(m, runs, e);
    EndIsFirstNul(after, b, e);
  }

  // ----- the same in terms of bytes alone

  /** The k-th token, as it reads in the memory after: from its start up to the NUL. */
  ghost predicate InToken(after: seq<byte>, tokens: seq<nat>, k: nat, j: nat) {
    k < |tokens| && tokens[k] <= |after| && tokens[k] <= j < StrEnd(after, tokens[k])
  }

  /** The tokens stand in the text, and each ends at a separator or at the end of the text. */
  ghost predicate TokensInText(m: seq<byte>, after: seq<byte>, s: nat, d: nat, tokens: seq<nat>)
    requires s <= |m| && d <= |m|
  {
    && |after| == |m|
    && forall k | 0 <= k < |tokens| ::
         && s <= tokens[k] < StrEnd(m, s)
         && tokens[k] < StrEnd(after, tokens[k]) <= StrEnd(m, s)
         && (StrEnd(after, tokens[k]) == StrEnd(m, s) || Separates(m, d, m[StrEnd(after, tokens[k])]))
  }

  /** Each token reads as the bytes that were there, none of them a separator. */
  ghost predicate TokensIntact(m: seq<byte>, after: seq<byte>, d: nat, tokens: seq<nat>)
    requires d <= |m| && |after| == |m|
  {
    forall k, j | 0 <= j < |m| && InToken(after, tokens, k, j) :: after[j] == m[j] && !Separates(m, d, m[j])
  }

  ghost predicate TokensOrdered(after: seq<byte>, tokens: seq<nat>) {
    forall k, l | 0 <= k < l < |tokens| :: tokens[k] <= |after| ==> StrEnd(after, tokens[k]) < tokens[l]
  }

  /** Every byte of the text that is in no token is a separator. */
  ghost predicate OthersSeparate(m: seq<byte>, after: seq<byte>, s: nat, d: nat, tokens: seq<nat>)
    requires s <= |m| && d <= |m|
  {
    forall j | s <= j < StrEnd(m, s) && !(exists k :: InToken(after, tokens, k, j)) :: Separates(m, d, m[j])
  }

  /** The text at s, split at the bytes of the string at d. */
  ghost predicate SplitAt(m: seq<byte>, after: seq<byte>, s: nat, d: nat, tokens: seq<nat>)
    requires s <= |m| && d <= |m|
  {
    && TokensInText(m, after, s, d, tokens) && TokensIntact(m, after, d, tokens)
    && TokensOrdered(after, tokens) && OthersSeparate(m, after, s, d, tokens)
  }

  /** Around every byte that is no delimiter there is a maximal run. */
  lemma RunAround(m: seq<byte>, s: nat, end: nat, delims: Delimiters, j: nat) returns (b: nat, e: nat)
    requires s <= j < end < |m| && m[j] !in delims
    ensures MaximalRun(m, s, end, delims, b, e) && b <= j < e
  {
    b, e := j, j + 1;
    while b > s && m[b - 1] !in delims
      invariant s <= b <= j && forall i | b <= i <= j :: m[i] !in delims
    {
      b := b - 1;
    }
    while e < end && m[e] !in delims
      invariant j < e <= end && forall i | b <= i < e :: m[i] !in delims
    {
      e := e + 1;
    }
  }

  /** A token that reads back ends where its run does. */
  lemma TokenEnds(m: seq<byte>, after: seq<byte>, b: nat, e: nat)
    requires b <= e <= |m| && |after| == |m| && Text(after, b) == m[b..e]
    ensures StrEnd(after, b) == e && forall j | b <= j < e :: after[j] == m[j]
  {
    assert |Text(after, b)| == StrEnd(after, b) - b;
    forall j | b <= j < e
      ensures after[j] == m[j]
    {
      assert Text(after, b)[j - b] == after[j] && m[b..e][j - b] == m[j];
    }
  }

  /** One token of a whole run. */
  lemma TokenFacts(m: seq<byte>, s: nat, delims: Delimiters, k: nat)
    requires IsString(m, s) && k < |Session(m, s, delims).0|
    ensures var (tokens, after) := Session(m, s, delims);
            var e := if tokens[k] <= |after| then StrEnd(after, tokens[k]) else 0;
            && |after| == |m| && s <= tokens[k] < e <= StrEnd(m, s) < |m|
            && (e == StrEnd(m, s) || m[e] in delims)
            && (forall j | tokens[k] <= j < e :: after[j] == m[j] && m[j] !in delims)
            && |Runs(m, s, delims)| == |tokens| && Runs(m, s, delims)[k] == (tokens[k], e)
  {
    var (tokens, after) := Session(m, s, delims);
    var runs, end := Runs(m, s, delims), StrEnd(m, s);
    StrtokFindsAllRuns(m, s, delims);
    hide Session, Runs, Text, StrEnd;
    var (b, e) := runs[k];
    assert (b, e) in runs;
    assert MaximalRun(m, s, end, delims, b, e) && ReadsBack(m, after, runs[k]);
    TokenEnds(m, after, b, e);
  }

  /** A byte of the text that is no delimiter is in a token. */
  lemma OthersAreDelimiters(m: seq<byte>, s: nat, delims: Delimiters, j: nat) returns (k: nat)
    requires IsString(m, s) && s <= j < StrEnd(m, s) && m[j] !in delims
    ensures var (tokens, after) := Session(m, s, delims);
            |after| == |m| && k < |tokens| && InToken(after, tokens, k, j)
  {
    StrtokFindsAllRuns(m, s, delims);
    TextIsNonZero(m, s);
    var b, e := RunAround(m, s, StrEnd(m, s), delims, j);
    assert (b, e) in Runs(m, s, delims);
    k :| 0 <= k < |Runs(m, s, delims)| && Runs(m, s, delims)[k] == (b, e);
    hide Session, Runs, StrEnd;
    TokenFacts(m, s, delims, k);
  }

  lemma TokensInOrder(m: seq<byte>, s: nat, delims: Delimiters, k: nat, l: nat)
    requires IsString(m, s) && k < l < |Session(m, s, delims).0|
    ensures var (tokens, after) := Session(m, s, delims);
            tokens[k] <= |after| && StrEnd(after, tokens[k]) < tokens[l]
  {
    StrtokFindsAllRuns(m, s, delims);
    hide Session, Runs, StrEnd;
    TokenFacts(m, s, delims, k);
    TokenFacts(m, s, delims, l);
  }

  lemma AllTokens(m: seq<byte>, s: nat, d: nat)
    requires IsString(m, s) && IsString(m, d)
    ensures var (tokens, after) := Session(m, s, DelimitersAt(m, d));
            TokensInText(m, after, s, d, tokens) && TokensIntact(m, after, d, tokens)
  {
    var delims := DelimitersAt(m, d);
    var (tokens, after) := Session(m, s, delims);
    SeparatorsAre(m, d);
    SessionKeepsLength(m, s, delims);
    hide Session, StrEnd, Separates, DelimitersAt, Runs;
    forall k | 0 <= k < |tokens|
      ensures s <= tokens[k] < StrEnd(m, s) < |m| && tokens[k] < StrEnd(after, tokens[k]) <= StrEnd(m, s)
      ensures StrEnd(after, tokens[k]) == StrEnd(m, s) || Separates(m, d, m[StrEnd(after, tokens[k])])
      ensures forall j | tokens[k] <= j < StrEnd(after, tokens[k]) :: after[j] == m[j] && !Separates(m, d, m[j])
    {
      TokenFacts(m, s, delims, k);
    }
  }

  lemma AllInOrder(m: seq<byte>, s: nat, delims: Delimiters)
    requires IsString(m, s)
    ensures var (tokens, after) := Session(m, s, delims); TokensOrdered(after, tokens)
  {
    var (tokens, after) := Session(m, s, delims);
    hide Session;
    forall k, l | 0 <= k < l < |tokens|
      ensures tokens[k] <= |after| ==> StrEnd(after, tokens[k]) < tokens[l]
    {
      TokensInOrder(m, s, delims, k, l);
    }
  }

  lemma AllOthers(m: seq<byte>, s: nat, d: nat)
    requires IsString(m, s) && IsString(m, d)
    ensures var (tokens, after) := Session(m, s, DelimitersAt(m, d)); OthersSeparate(m, after, s, d, tokens)
  {
    var delims := DelimitersAt(m, d);
    var (tokens, after) := Session(m, s, delims);
    SeparatorsAre(m, d);
    hide Session, StrEnd, Separates, DelimitersAt;
    forall j | s <= j < StrEnd(m, s) && !(exists k :: InToken(after, tokens, k, j))
      ensures Separates(m, d, m[j])
    {
      if m[j] !in delims {
        var k := OthersAreDelimiters(m, s, delims, j);
      }
    }
  }

  /** A whole run of strtok splits the text at the bytes of the delimiter string. */
  lemma StrtokSplits(m: seq<byte>, s: nat, d: nat)
    requires IsString(m, s) && IsString(m, d)
    ensures var (tokens, after) := Session(m, s, DelimitersAt(m, d)); SplitAt(m, after, s, d, tokens)
  {
    AllTokens(m, s, d);
    AllInOrder(m, s, DelimitersAt(m, d));
    AllOthers(m, s, d);
  }

  lemma SessionKeepsLength(m: seq<byte>, s: nat, delims: Delimiters)
    requires IsString(m, s)
    ensures |Session(m, s, delims).1| == |m|
  {
    StrtokFindsAllRuns(m, s, delims);
  }
}
