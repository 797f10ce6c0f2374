/** Byte-addressed memory: a pointer is stored as eight bytes, least significant first. */
module RawMemory {
  import opened MachineWords

  function ToBytes(v: nat, n: nat): (b: seq<byte>)
    ensures |b| == n
  {
    if n == 0 then [] else [v % 256] + ToBytes(v / 256, n - 1)
  }

  function FromBytes(b: seq<byte>): (v: nat)
    ensures v < Pow(256, |b|)
  {
    if b == [] then 0 else b[0] + 256 * FromBytes(b[1..])
  }

  lemma {:induction false} BytesRoundTrip(v: nat, n: nat)
    requires v < Pow(256, n)
    ensures FromBytes(ToBytes(v, n)) == v
  {
    if n > 0 {
      assert ToBytes(v, n)[1..] == ToBytes(v / 256, n - 1);
      BytesRoundTrip(v / 256, n - 1);
    }
  }

  lemma {:induction false} PointerRange()
    ensures Pow(256, 8) == TWO64
  {
    assert Pow(256, 4) == 0x1_0000_0000;
    assert Pow(256, 6) == 0x1_0000_0000_0000;
  }

  /** The memory m with the bytes b written at address a. */
  function Written(m: seq<byte>, a: nat, b: seq<byte>): (r: seq<byte>)
    requires a + |b| <= |m|
    ensures |r| == |m|
  {
    m[..a] + b + m[a + |b|..]
  }

  function LoadPtr(m: seq<byte>, a: nat): u64 {
    PointerRange();
    if a + 8 <= |m| then FromBytes(m[a..a + 8]) else 0
  }

  function StorePtr(m: seq<byte>, a: nat, v: u64): seq<byte>
    requires a + 8 <= |m|
  {
    Written(m, a, ToBytes(v, 8))
  }

  /** The bytes of a stored number, the least significant at the lowest address. */
  lemma {:induction false} LittleEndian(v: nat, n: nat, j: nat)
    requires j < n
    ensures ToBytes(v, n)[j] == v / Pow(256, j) % 256
    decreases n
  {
    if j == 0 {
      assert Pow(256, 0) == 1;
    } else {
      LittleEndian(v / 256, n - 1, j - 1);
      DivideTwice(v, 256, Pow(256, j - 1));
    }
  }

  lemma DivideTwice(v: nat, a: nat, b: nat)
    requires a > 0 && b > 0
    ensures a * b > 0 && v / a / b == v / (a * b)
  {
    var q, r := v / a, v % a;
    var q', r' := q / b, q % b;
    TwoDigits(a, b, q', r', r);
    DivModUnique(v, a * b, q', a * r' + r);
  }

  lemma TwoDigits(a: nat, b: nat, q: nat, r': nat, r: nat)
    requires r' < b && r < a
    ensures a * (b * q + r') + r == (a * b) * q + (a * r' + r)
    ensures 0 <= a * r' + r < a * b
  {
    assert a * (r' + 1) <= a * b by {
      var d := b - (r' + 1);
      assert a * b == a * (r' + 1) + a * d;
    }
  }

  /** A stored pointer reads back, and pointers stored elsewhere are not disturbed. */
  lemma StoreThenLoad(m: seq<byte>, a: nat, v: u64, q: nat)
    requires a + 8 <= |m|
    ensures LoadPtr(StorePtr(m, a, v), a) == v
    ensures a + 8 <= q || q + 8 <= a ==> LoadPtr(StorePtr(m, a, v), q) == LoadPtr(m, q)
  {
    var m' := StorePtr(m, a, v);
    PointerRange();
    BytesRoundTrip(v, 8);
    assert m'[a..a + 8] == ToBytes(v, 8);
    if q + 8 <= |m| && (a + 8 <= q || q + 8 <= a) {
      assert m'[q..q + 8] == m[q..q + 8];
    }
  }

  /** Bytes written elsewhere do not disturb a stored pointer. */
  lemma WriteThenLoad(m: seq<byte>, a: nat, b: seq<byte>, q: nat)
    requires a + |b| <= |m| && (a + |b| <= q || q + 8 <= a)
    ensures LoadPtr(Written(m, a, b), q) == LoadPtr(m, q)
  {
    if q + 8 <= |m| {
      assert Written(m, a, b)[q..q + 8] == m[q..q + 8];
    }
  }

  method WriteBytes(ram: array<byte>, a: nat, b: seq<byte>)
    requires a + |b| <= ram.Length
    modifies ram
    ensures ram[..] == Written(old(ram[..]), a, b)
  {
    forall i | 0 <= i < |b| {
      ram[a + i] := b[i];
    }
  }

  method WritePtr(ram: array<byte>, a: nat, v: u64)
    requires a + 8 <= ram.Length
    modifies ram
    ensures ram[..] == StorePtr(old(ram[..]), a, v)
  {
    WriteBytes(ram, a, ToBytes(v, 8));
  }

  method ReadPtr(ram: array<byte>, a: nat) returns (v: u64)
    requires a + 8 <= ram.Length
    ensures v == LoadPtr(ram[..], a)
  {
    assert ram[..][a..a + 8] == ram[a..a + 8];
    PointerRange();
    v := FromBytes(ram[a..a + 8]);
  }
}
