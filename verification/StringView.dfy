/** ktl::string_view: comparison by signed characters, and how it relates to strcmp. */
module StringView {
  import opened MachineWords
  import opened CString

  /** A plain char is signed on the target. */
  function SignedChar(b: byte): int {
    if b < 128 then b else b - 256
  }

  datatype View = View(data: nat, size: nat) {
    predicate Within(m: seq<byte>) {
      data + size <= |m|
    }

    function Content(m: seq<byte>): seq<byte>
      requires Within(m)
    {
      m[data..data + size]
    }
  }

  /** Signed lexicographic comparison; a proper prefix comes first. */
  function ViewOrder(a: seq<byte>, b: seq<byte>): int {
    if a == [] then (if b == [] then 0 else -1)
    else if b == [] then 1
    else if SignedChar(a[0]) < SignedChar(b[0]) then -1
    else if SignedChar(a[0]) > SignedChar(b[0]) then 1
    else ViewOrder(a[1..], b[1..])
  }

  function Sign(x: int): int {
    if x < 0 then -1 else if x > 0 then 1 else 0
  }

  /** Where the texts first differ, both bytes are 7-bit or neither is. */
  predicate SameHalf(a: seq<byte>, b: seq<byte>) {
    if a == [] || b == [] then true
    else if a[0] == b[0] then SameHalf(a[1..], b[1..])
    else (a[0] < 128) == (b[0] < 128)
  }

  /** string_view::compare and strcmp agree in sign exactly when the first differing bytes lie in the same half. */
  lemma {:induction false} ViewAgreesWithStrcmpIff(a: seq<byte>, b: seq<byte>)
    requires NonZero(a) && NonZero(b)
    ensures ViewOrder(a, b) == Sign(Compare(a, b)) <==> SameHalf(a, b)
  {
    if a != [] && b != [] && a[0] == b[0] {
      ViewAgreesWithStrcmpIff(a[1..], b[1..]);
    }
  }

  /** An instance: the byte 200 is negative as a character, so its view precedes that of "d", while strcmp puts it last. */
  lemma HighByteDisagrees()
    ensures ViewOrder([200], [100]) == -1 && Compare([200], [100]) == 100 && !SameHalf([200], [100])
  {
    assert SignedChar(200) == -56;
  }

  lemma {:induction false} SevenBitAgrees(a: seq<byte>, b: seq<byte>)
    requires NonZero(a) && NonZero(b)
    requires (forall i | 0 <= i < |a| :: a[i] < 128) && forall i | 0 <= i < |b| :: b[i] < 128
    ensures ViewOrder(a, b) == Sign(Compare(a, b))
  {
    SevenBitIsSameHalf(a, b);
    ViewAgreesWithStrcmpIff(a, b);
  }

  lemma {:induction false} SevenBitIsSameHalf(a: seq<byte>, b: seq<byte>)
    requires (forall i | 0 <= i < |a| :: a[i] < 128) && forall i | 0 <= i < |b| :: b[i] < 128
    ensures SameHalf(a, b)
  {
    if a != [] && b != [] && a[0] == b[0] {
      SevenBitIsSameHalf(a[1..], b[1..]);
    }
  }

  /** The comparison operators order views totally: antisymmetric, transitive, and equal only for equal contents. */
  lemma {:induction false} ViewOrderIsTotal(a: seq<byte>, b: seq<byte>, c: seq<byte>)
    ensures ViewOrder(a, b) == -ViewOrder(b, a)
    ensures ViewOrder(a, b) == 0 <==> a == b
    ensures ViewOrder(a, b) <= 0 && ViewOrder(b, c) <= 0 ==> ViewOrder(a, c) <= 0
    decreases |a| + |b| + |c|
  {
    if a != [] && b != [] {
      assert a == [a[0]] + a[1..] && b == [b[0]] + b[1..];
      if a[0] == b[0] {
        ViewOrderIsTotal(a[1..], b[1..], if c == [] then [] else c[1..]);
      }
    }
  }

  method CompareViews(m: array<byte>, x: View, y: View) returns (r: int)
    requires x.Within(m[..]) && y.Within(m[..])
    ensures r == ViewOrder(x.Content(m[..]), y.Content(m[..]))
  {
    ghost var a, b := x.Content(m[..]), y.Content(m[..]);
    var n := if x.size < y.size then x.size else y.size;
    for i := 0 to n
      invariant ViewOrder(a[i..], b[i..]) == ViewOrder(a, b)
    {
      assert a[i] == m[x.data + i] && b[i] == m[y.data + i];
      assert a[i..][1..] == a[i + 1..] && b[i..][1..] == b[i + 1..];
      if SignedChar(m[x.data + i]) < SignedChar(m[y.data + i]) {
        return -1;
      }
      if SignedChar(m[x.data + i]) > SignedChar(m[y.data + i]) {
        return 1;
      }
    }
    if x.size < y.size {
      return -1;
    }
    if x.size > y.size {
      return 1;
    }
    return 0;
  }

  /** compute_length is strlen. */
  method ComputeLength(m: array<byte>, s: nat) returns (len: nat)
    requires IsString(m[..], s)
    ensures len == |Text(m[..], s)|
  {
    len := 0;
    while m[s + len] != 0
      invariant s + len <= StrEnd(m[..], s) && StrEnd(m[..], s + len) == StrEnd(m[..], s)
      decreases m.Length - len
    {
      len := len + 1;
    }
  }
}
