/** The freestanding C string library over one shared byte memory; pointers are indices into it. */
module CString {
  import opened MachineWords

  datatype Ptr = Null | At(addr: nat)

  /** The bytes of a text written out. */
  function Ascii(s: string): (t: seq<byte>)
    ensures |t| == |s|
  {
    seq(|s|, i requires 0 <= i < |s| => s[i] as int % 256)
  }

  // ----- NUL-terminated text

  /** Where the text at p ends: the first NUL, or the end of memory. */
  function StrEnd(m: seq<byte>, p: nat): (e: nat)
    requires p <= |m|
    ensures p <= e <= |m|
    decreases |m| - p
  {
    if p == |m| || m[p] == 0 then p else StrEnd(m, p + 1)
  }

  predicate IsString(m: seq<byte>, p: nat) {
    p < |m| && StrEnd(m, p) < |m|
  }

  function Text(m: seq<byte>, p: nat): seq<byte>
    requires p <= |m|
  {
    m[p..StrEnd(m, p)]
  }

  ghost predicate NonZero(t: seq<byte>) {
    forall i | 0 <= i < |t| :: t[i] != 0
  }

  lemma {:induction false} TextIsNonZero(m: seq<byte>, p: nat)
    requires p <= |m|
    ensures forall i | p <= i < StrEnd(m, p) :: m[i] != 0
    ensures NonZero(Text(m, p))
    ensures StrEnd(m, p) < |m| ==> m[StrEnd(m, p)] == 0
    decreases |m| - p
  {
    if p < |m| && m[p] != 0 {
      TextIsNonZero(m, p + 1);
    }
  }

  /** The text's end is the only index with no NUL before it that holds one. */
  lemma {:induction false} EndIsFirstNul(m: seq<byte>, p: nat, e: nat)
    requires p <= e <= |m|
    requires forall i | p <= i < e :: m[i] != 0
    requires e < |m| ==> m[e] == 0
    ensures StrEnd(m, p) == e
    decreases e - p
  {
    if p < e {
      EndIsFirstNul(m, p + 1, e);
    }
  }

  lemma TextStep(m: seq<byte>, p: nat)
    requires p < |m| && m[p] != 0
    ensures Text(m, p) == [m[p]] + Text(m, p + 1)
    ensures IsString(m, p) <==> IsString(m, p + 1)
  {
  }

  lemma {:induction false} TextSuffix(m: seq<byte>, p: nat, q: nat)
    requires p <= |m| && p <= q <= StrEnd(m, p)
    ensures StrEnd(m, q) == StrEnd(m, p) && Text(m, q) == Text(m, p)[q - p..]
  {
    TextIsNonZero(m, p);
    EndIsFirstNul(m, q, StrEnd(m, p));
  }

  method Strlen(m: array<byte>, s: nat) returns (n: nat)
    requires IsString(m[..], s)
    ensures n == |Text(m[..], s)|
  {
    var p := s;
    while m[p] != 0
      invariant s <= p <= StrEnd(m[..], s) && StrEnd(m[..], p) == StrEnd(m[..], s)
      decreases m.Length - p
    {
      p := p + 1;
    }
    n := p - s;
  }

  // ----- memmove

  method Memmove(m: array<byte>, dest: nat, src: nat, n: nat) returns (r: nat)
    requires dest + n <= m.Length && src + n <= m.Length
    modifies m
    ensures r == dest
    ensures m[dest..dest + n] == old(m[src..src + n])
    ensures forall i | 0 <= i < m.Length && !(dest <= i < dest + n) :: m[i] == old(m[i])
  {
    var d, s, left := dest, src, n;
    if d < s {
      while left != 0
        invariant 0 <= left <= n && d == dest + (n - left) && s == src + (n - left)
        invariant forall i | dest <= i < d :: m[i] == old(m[i - dest + src])
        invariant forall i | 0 <= i < m.Length && !(dest <= i < d) :: m[i] == old(m[i])
      {
        left := left - 1;
        m[d] := m[s];
        d, s := d + 1, s + 1;
      }
    } else {
      d, s := d + n, s + n;
      while left != 0
        invariant 0 <= left <= n && d == dest + left && s == src + left
        invariant forall i | d <= i < dest + n :: m[i] == old(m[i - dest + src])
        invariant forall i | 0 <= i < m.Length && !(d <= i < dest + n) :: m[i] == old(m[i])
      {
        left := left - 1;
        d, s := d - 1, s - 1;
        m[d] := m[s];
      }
    }
    r := dest;
  }

  // ----- comparison

  /** The difference of the first bytes that differ, where a text that ends first continues with NUL. */
  function Compare(a: seq<byte>, b: seq<byte>): int {
    if a == [] then (if b == [] then 0 else -b[0])
    else if b == [] then a[0]
    else if a[0] != b[0] then a[0] - b[0]
    else Compare(a[1..], b[1..])
  }

  /** Lexicographic order: a is a proper prefix of b, or is smaller at the first difference. */
  ghost predicate Before(a: seq<byte>, b: seq<byte>) {
    exists k | 0 <= k <= |a| && k < |b| :: a[..k] == b[..k] && (k == |a| || a[k] < b[k])
  }

  lemma {:induction false} CompareIsLexicographic(a: seq<byte>, b: seq<byte>)
    requires (NonZero(a) && NonZero(b)) || |a| == |b|
    ensures Compare(a, b) < 0 <==> Before(a, b)
    ensures Compare(a, b) == 0 <==> a == b
    ensures Compare(a, b) == -Compare(b, a)
    decreases |a|
  {
    if a != [] && b != [] && a[0] == b[0] {
      CompareIsLexicographic(a[1..], b[1..]);
      BeforeTail(a, b);
    } else if b != [] && (a == [] || a[0] < b[0]) {
      assert a[..0] == b[..0];
    }
  }

  lemma BeforeTail(a: seq<byte>, b: seq<byte>)
    requires a != [] && b != [] && a[0] == b[0]
    ensures Before(a, b) <==> Before(a[1..], b[1..])
    ensures a == b <==> a[1..] == b[1..]
  {
    var a', b' := a[1..], b[1..];
    assert a == [a[0]] + a' && b == [b[0]] + b';
    if Before(a', b') {
      var k :| 0 <= k <= |a'| && k < |b'| && a'[..k] == b'[..k] && (k == |a'| || a'[k] < b'[k]);
      BeforeCons(a, b, k);
    }
    if Before(a, b) {
      var k :| 0 <= k <= |a| && k < |b| && a[..k] == b[..k] && (k == |a| || a[k] < b[k]);
      assert a'[..k - 1] == a[..k][1..] && b'[..k - 1] == b[..k][1..];
    }
  }

  lemma BeforeCons(a: seq<byte>, b: seq<byte>, k: nat)
    requires a != [] && b != [] && a[0] == b[0] && k < |a| && k + 1 < |b|
    requires a[1..][..k] == b[1..][..k] && (k + 1 == |a| || a[k + 1] < b[k + 1])
    ensures Before(a, b)
  {
    assert a[..k + 1] == [a[0]] + a[1..][..k] && b[..k + 1] == [b[0]] + b[1..][..k];
  }

  lemma {:induction false} CompareIsTransitive(a: seq<byte>, b: seq<byte>, c: seq<byte>)
    requires NonZero(a) && NonZero(b) && NonZero(c)
    requires Compare(a, b) <= 0 && Compare(b, c) <= 0
    ensures Compare(a, c) <= 0
    ensures Compare(a, c) == 0 ==> Compare(a, b) == 0 && Compare(b, c) == 0
    decreases |a|
  {
    if a != [] && b != [] && c != [] && a[0] == b[0] == c[0] {
      CompareIsTransitive(a[1..], b[1..], c[1..]);
    }
  }

  method Strcmp(m: array<byte>, s1: nat, s2: nat) returns (r: int)
    requires IsString(m[..], s1) && IsString(m[..], s2)
    ensures r == Compare(Text(m[..], s1), Text(m[..], s2))
  {
    var p: nat, q: nat := s1, s2;
    while m[p] != 0 && m[p] == m[q]
      invariant p < m.Length && IsString(m[..], p) && IsString(m[..], q)
      invariant Compare(Text(m[..], p), Text(m[..], q)) == Compare(Text(m[..], s1), Text(m[..], s2))
      decreases m.Length - p
    {
      TextStep(m[..], p);
      TextStep(m[..], q);
      p, q := p + 1, q + 1;
    }
    FirstBytes(m[..], p);
    FirstBytes(m[..], q);
    r := (m[p] as int) - m[q] as int;
  }

  lemma FirstBytes(m: seq<byte>, p: nat)
    requires p < |m|
    ensures if m[p] == 0 then Text(m, p) == [] else Text(m, p) != [] && Text(m, p)[0] == m[p]
  {
  }

  /** The first n bytes of the text at p. */
  function Prefix(m: seq<byte>, p: nat, n: nat): seq<byte>
    requires p <= |m|
  {
    Truncated(Text(m, p), n)
  }

  function Truncated(t: seq<byte>, n: nat): (r: seq<byte>)
    ensures r <= t && |r| <= n && (r == t || |r| == n)
  {
    if n < |t| then t[..n] else t
  }

  lemma TruncatedTail(c: byte, t: seq<byte>, n: nat)
    requires n > 0
    ensures Truncated([c] + t, n) != [] && Truncated([c] + t, n)[0] == c && Truncated([c] + t, n)[1..] == Truncated(t, n - 1)
  {
    if n < |t| + 1 {
      assert ([c] + t)[..n] == [c] + t[..n - 1];
    }
  }

  /** A string, or an array with room for n bytes. */
  predicate Readable(m: seq<byte>, p: nat, n: nat) {
    IsString(m, p) || p + n <= |m|
  }

  /** The bytes from p on spell out t, and then NUL unless n bytes are used up. */
  ghost predicate Spells(m: seq<byte>, p: nat, n: nat, t: seq<byte>)
    decreases n
  {
    if n == 0 then t == []
    else p < |m| && if t == [] then m[p] == 0 else m[p] == t[0] != 0 && Spells(m, p + 1, n - 1, t[1..])
  }

  lemma {:induction false} PrefixIsSpelled(m: seq<byte>, p: nat, n: nat)
    requires p <= |m| && Readable(m, p, n)
    ensures Spells(m, p, n, Prefix(m, p, n))
    decreases n
  {
    if n > 0 && m[p] != 0 {
      TextStep(m, p);
      PrefixIsSpelled(m, p + 1, n - 1);
      TruncatedTail(m[p], Text(m, p + 1), n);
    }
  }

  /** strncmp compares the texts cut to n bytes. */
  method Strncmp(m: array<byte>, s1: nat, s2: nat, n: nat) returns (r: int)
    requires s1 <= m.Length && s2 <= m.Length && Readable(m[..], s1, n) && Readable(m[..], s2, n)
    ensures r == Compare(Prefix(m[..], s1, n), Prefix(m[..], s2, n))
  {
    if n == 0 {
      return 0;
    }
    PrefixIsSpelled(m[..], s1, n);
    PrefixIsSpelled(m[..], s2, n);
    r := CompareSpelled(m, s1, s2, n, Prefix(m[..], s1, n), Prefix(m[..], s2, n));
  }

  /** strncmp's loop. */
  method CompareSpelled(m: array<byte>, s1: nat, s2: nat, n: nat, ghost a: seq<byte>, ghost b: seq<byte>) returns (r: int)
    requires n > 0 && Spells(m[..], s1, n, a) && Spells(m[..], s2, n, b)
    ensures r == Compare(a, b)
  {
    var p: nat, q: nat, left: nat := s1, s2, n;
    ghost var x, y := a, b;
    while left != 0 && m[p] != 0 && m[p] == m[q]
      invariant left > 0 && Spells(m[..], p, left, x) && Spells(m[..], q, left, y)
      invariant Compare(x, y) == Compare(a, b)
      decreases left
    {
      left := left - 1;
      x, y := x[1..], y[1..];
      if left == 0 {
        break;
      }
      p, q := p + 1, q + 1;
    }
    r := (m[p] as int) - m[q] as int;
  }

  method Memcmp(m: array<byte>, s1: nat, s2: nat, n: nat) returns (r: int)
    requires s1 + n <= m.Length && s2 + n <= m.Length
    ensures r == Compare(m[s1..s1 + n], m[s2..s2 + n])
  {
    var k := 0;
    while k < n
      invariant 0 <= k <= n
      invariant Compare(m[s1 + k..s1 + n], m[s2 + k..s2 + n]) == Compare(m[s1..s1 + n], m[s2..s2 + n])
    {
      if m[s1 + k] != m[s2 + k] {
        return (m[s1 + k] as int) - m[s2 + k] as int;
      }
      assert m[s1 + k..s1 + n][1..] == m[s1 + k + 1..s1 + n];
      assert m[s2 + k..s2 + n][1..] == m[s2 + k + 1..s2 + n];
      k := k + 1;
    }
    return 0;
  }

  // ----- strstr

  /** The needle's text starts at position k of the haystack's. */
  predicate Occurs(hay: seq<byte>, needle: seq<byte>, k: nat) {
    k <= |hay| && needle <= hay[k..]
  }

  method Strstr(m: array<byte>, haystack: nat, needle: nat) returns (r: Ptr)
    requires IsString(m[..], haystack) && IsString(m[..], needle)
    ensures var hay, ndl := Text(m[..], haystack), Text(m[..], needle);
            match r
            case Null => forall k: nat :: !Occurs(hay, ndl, k)
            case At(a) => haystack <= a && Occurs(hay, ndl, a - haystack) &&
                          forall k: nat | k < a - haystack :: !Occurs(hay, ndl, k)
  {
    ghost var hay, ndl := Text(m[..], haystack), Text(m[..], needle);
    FirstBytes(m[..], needle);
    if m[needle] == 0 {
      return At(haystack);
    }
    var p := haystack;
    while m[p] != 0
      invariant haystack <= p <= StrEnd(m[..], haystack) < m.Length
      invariant forall k: nat | k < p - haystack :: !Occurs(hay, ndl, k)
      decreases m.Length - p
    {
      TextSuffix(m[..], haystack, p);
      FirstBytes(m[..], p);
      var matches := StartsWith(m, p, needle);
      if matches {
        return At(p);
      }
      p := p + 1;
    }
    TextIsNonZero(m[..], haystack);
    r := Null;
  }

  /** The loop body of strstr: a quick first-byte test, then the full comparison. */
  method StartsWith(m: array<byte>, p: nat, needle: nat) returns (b: bool)
    requires IsString(m[..], p) && IsString(m[..], needle) && m[needle] != 0
    ensures b <==> Text(m[..], needle) <= Text(m[..], p)
  {
    ghost var mem := m[..];
    hide StrEnd, Text;
    if m[p] != m[needle] {
      PrefixEnds(mem, needle, p);
      return false;
    }
    var h: nat, n: nat := p, needle;
    while m[h] != 0 && m[n] != 0 && m[h] == m[n]
      invariant IsString(mem, h) && IsString(mem, n)
      invariant (Text(mem, n) <= Text(mem, h)) == (Text(mem, needle) <= Text(mem, p))
      decreases m.Length - h
    {
      PrefixOfTails(mem, n, h);
      h, n := h + 1, n + 1;
    }
    PrefixEnds(mem, n, h);
    b := m[n] == 0;
  }

  /** Where two texts part, the one is a prefix of the other exactly when it is at its end. */
  lemma PrefixEnds(m: seq<byte>, n: nat, h: nat)
    requires IsString(m, n) && IsString(m, h) && (m[h] == 0 || m[n] == 0 || m[h] != m[n])
    ensures Text(m, n) <= Text(m, h) <==> m[n] == 0
  {
    FirstBytes(m, h);
    FirstBytes(m, n);
    hide StrEnd, Text;
  }

  lemma PrefixOfTails(m: seq<byte>, n: nat, h: nat)
    requires IsString(m, n) && IsString(m, h) && m[n] == m[h] != 0
    ensures IsString(m, n + 1) && IsString(m, h + 1)
    ensures Text(m, n) <= Text(m, h) <==> Text(m, n + 1) <= Text(m, h + 1)
  {
    TextStep(m, h);
    TextStep(m, n);
    assert Text(m, n + 1) == Text(m, n)[1..] && Text(m, h + 1) == Text(m, h)[1..];
  }
}
