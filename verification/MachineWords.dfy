/** Fixed-width machine words as integers: wrap-around, bitwise and, masks and shifts. */
module MachineWords {

  const TWO64: nat := 0x1_0000_0000_0000_0000

  type u64 = x: int | 0 <= x < TWO64

  type byte = x: int | 0 <= x < 256

  /** 64-bit unsigned addition: the carry out of the top bit is lost. */
  function Add64(a: u64, b: u64): u64 {
    if a + b < TWO64 then a + b else a + b - TWO64
  }

  /** 64-bit unsigned subtraction: the borrow is lost. */
  function Sub64(a: u64, b: u64): u64 {
    if a >= b then a - b else a + (TWO64 - b)
  }

  function Pow(base: nat, k: nat): (r: nat)
    ensures base > 0 ==> r > 0
  {
    if k == 0 then 1 else base * Pow(base, k - 1)
  }

  function Bit(x: nat, i: nat): bool {
    if i == 0 then x % 2 == 1 else Bit(x / 2, i - 1)
  }

  /** Bitwise and, from the least significant bit upwards. */
  function BitAnd(x: nat, y: nat): nat
    decreases x
  {
    if x == 0 || y == 0 then 0
    else (if x % 2 == 1 && y % 2 == 1 then 1 else 0) + 2 * BitAnd(x / 2, y / 2)
  }

  /** Bitwise complement of a 64-bit word. */
  function Not64(x: u64): u64 {
    TWO64 - 1 - x
  }

  /** Logical shift right, one bit at a time. */
  function ShiftRight(x: nat, i: nat): nat
    decreases i
  {
    if i == 0 then x else ShiftRight(x / 2, i - 1)
  }

  function AlignDown(addr: u64, align: u64): nat
    requires align > 0
  {
    BitAnd(addr, Not64(align - 1))
  }

  function AlignUp(addr: u64, align: u64): nat
    requires align > 0
  {
    BitAnd(Add64(addr, align - 1), Not64(align - 1))
  }

  lemma {:induction false} ZeroHasNoBits(i: nat)
    ensures !Bit(0, i)
  {
    if i > 0 {
      ZeroHasNoBits(i - 1);
    }
  }

  /** BitAnd is the bitwise conjunction: its i-th bit is set exactly when both operands have it. */
  lemma {:induction false} BitAndIsBitwise(x: nat, y: nat, i: nat)
    ensures Bit(BitAnd(x, y), i) == (Bit(x, i) && Bit(y, i))
    decreases i
  {
    if x == 0 || y == 0 {
      ZeroHasNoBits(i);
    } else if i > 0 {
      BitAndIsBitwise(x / 2, y / 2, i - 1);
    }
  }

  lemma {:induction false} PowersOfTwoGrow(k: nat, n: nat)
    requires k <= n
    ensures Pow(2, k) <= Pow(2, n)
    decreases n
  {
    if k < n {
      PowersOfTwoGrow(k, n - 1);
    }
  }

  lemma {:induction false} PowersOfTwo()
    ensures Pow(2, 64) == TWO64 && Pow(2, 12) == 4096
  {
    assert Pow(2, 8) == 256;
    assert Pow(2, 12) == 4096;
    assert Pow(2, 16) == 65536;
    assert Pow(2, 24) == 0x100_0000;
    assert Pow(2, 32) == 0x1_0000_0000;
    assert Pow(2, 40) == 0x100_0000_0000;
    assert Pow(2, 48) == 0x1_0000_0000_0000;
    assert Pow(2, 56) == 0x100_0000_0000_0000;
  }

  /** Splits a quotient and a remainder at the low bit. */
  lemma DivModPeel(x: nat, m: nat)
    requires m > 0
    ensures x % (2 * m) == 2 * ((x / 2) % m) + x % 2
    ensures x / (2 * m) == (x / 2) / m
  {
    var h := x / 2;
    var q, r := h / m, h % m;
    assert x == (2 * m) * q + (2 * r + x % 2) by {
      assert h == m * q + r;
    }
    DivModUnique(x, 2 * m, q, 2 * r + x % 2);
  }

  lemma QuotientUnique(d: int, q: int, r: int, q': int, r': int)
    requires 0 <= r < d && 0 <= r' < d
    requires d * q + r == d * q' + r'
    ensures q == q' && r == r'
  {
    assert d * (q - q') == r' - r;
    if q - q' >= 1 {
      MulAtLeast(d, q - q');
    } else if q' - q >= 1 {
      assert d * (q' - q) == r - r';
      MulAtLeast(d, q' - q);
    }
  }

  lemma MulAtLeast(d: int, n: int)
    requires d >= 0 && n >= 1
    ensures d * n >= d
  {
  }

  lemma DivModUnique(x: int, d: int, q: int, r: int)
    requires 0 <= r < d && x == d * q + r
    ensures x / d == q && x % d == r
  {
    QuotientUnique(d, q, r, x / d, x % d);
  }

  /** One unfolding of BitAnd that holds for all operands. */
  lemma {:induction false} BitAndPeel(x: nat, y: nat)
    ensures BitAnd(x, y) == (if x % 2 == 1 && y % 2 == 1 then 1 else 0) + 2 * BitAnd(x / 2, y / 2)
  {
  }

  /** The k low bits of x, bit by bit. */
  function LowBits(x: nat, k: nat): nat {
    if k == 0 then 0 else x % 2 + 2 * LowBits(x / 2, k - 1)
  }

  lemma {:induction false} LowBitsIsRemainder(x: nat, k: nat)
    ensures LowBits(x, k) == x % Pow(2, k)
  {
    if k > 0 {
      LowBitsIsRemainder(x / 2, k - 1);
      DivModPeel(x, Pow(2, k - 1));
    }
  }

  lemma BitAndZero(x: nat)
    ensures BitAnd(x, 0) == 0
  {
  }

  lemma BitAndOddMask(x: nat, half: nat)
    ensures BitAnd(x, 2 * half + 1) == x % 2 + 2 * BitAnd(x / 2, half)
  {
    hide BitAnd;
    var mask := 2 * half + 1;
    BitAndPeel(x, mask);
    assert mask % 2 == 1 && mask / 2 == half;
  }

  /** Masking with 2^k - 1 keeps the k low bits. */
  lemma {:induction false} LowMask(x: nat, k: nat)
    ensures BitAnd(x, Pow(2, k) - 1) == LowBits(x, k)
    decreases k
  {
    hide BitAnd;
    if k == 0 {
      BitAndZero(x);
    } else {
      var half: nat := Pow(2, k - 1) - 1;
      assert Pow(2, k) - 1 == 2 * half + 1;
      BitAndOddMask(x, half);
      LowMask(x / 2, k - 1);
    }
  }

  lemma {:induction false} LowBitsOfWord(x: nat, w: nat)
    requires x < Pow(2, w)
    ensures LowBits(x, w) == x
  {
    if w > 0 {
      LowBitsOfWord(x / 2, w - 1);
    }
  }

  lemma BitAndEvenMask(x: nat, half: nat)
    ensures BitAnd(x, 2 * half) == 2 * BitAnd(x / 2, half)
  {
    hide BitAnd;
    var mask := 2 * half;
    BitAndPeel(x, mask);
    assert mask % 2 == 0 && mask / 2 == half;
  }

  /** Masking a w-bit word with the complement of 2^k - 1 clears the k low bits. */
  lemma {:induction false} HighMask(x: nat, k: nat, w: nat)
    requires k <= w && x < Pow(2, w)
    ensures Pow(2, k) <= Pow(2, w)
    ensures BitAnd(x, Pow(2, w) - Pow(2, k)) == x - LowBits(x, k)
    decreases w
  {
    hide BitAnd;
    PowersOfTwoGrow(k, w);
    if k == 0 {
      LowMask(x, w);
      LowBitsOfWord(x, w);
    } else {
      var half: nat := Pow(2, w - 1) - Pow(2, k - 1);
      assert Pow(2, w) - Pow(2, k) == 2 * half;
      HighMask(x / 2, k - 1, w - 1);
      BitAndEvenMask(x, half);
    }
  }

  lemma SmallMod(x: nat, m: nat)
    requires x < m
    ensures x % m == x && x / m == 0
  {
    DivModUnique(x, m, 0, x);
  }

  lemma MultipleBelow(x: nat, m: nat)
    requires m > 0
    ensures (x - x % m) % m == 0 && x - x % m <= x < x - x % m + m
  {
    DivModUnique(x - x % m, m, x / m, 0);
  }

  lemma PowBelow(k: nat)
    requires k < 64
    ensures Pow(2, k) < TWO64
  {
    PowersOfTwo();
    PowersOfTwoGrow(k, 63);
  }

  /** What clearing the k low bits of a 64-bit word leaves: the largest multiple of 2^k below it. */
  lemma MaskedWord(x: u64, k: nat)
    requires k < 64
    ensures 0 < Pow(2, k) < TWO64
    ensures var r := BitAnd(x, Not64(Pow(2, k) - 1));
            r % Pow(2, k) == 0 && r <= x < r + Pow(2, k)
  {
    hide BitAnd, LowBits, Pow;
    PowersOfTwo();
    PowBelow(k);
    HighMask(x, k, 64);
    LowBitsIsRemainder(x, k);
    var m: nat, r: nat := Pow(2, k), x % Pow(2, k);
    assert Not64(m - 1) == TWO64 - m;
    MultipleBelow(x, m);
  }

  lemma MultipleBelowOne(r: nat, m: nat)
    requires r < m && r % m == 0
    ensures r == 0
  {
    SmallMod(r, m);
  }

  /** alignDown is the floor to a multiple, for every power-of-two alignment. */
  lemma AlignDownIsFloor(addr: u64, k: nat)
    requires k < 64
    ensures 0 < Pow(2, k) < TWO64
    ensures var r := AlignDown(addr, Pow(2, k));
            r % Pow(2, k) == 0 && r <= addr < r + Pow(2, k)
  {
    MaskedWord(addr, k);
  }

  /**
   * alignUp is the ceiling to a multiple, for every power-of-two alignment, exactly when
   * adding align - 1 stays below 2^64; past that point it returns 0.
   */
  lemma AlignUpIsCeiling(addr: u64, k: nat)
    requires k < 64
    ensures 0 < Pow(2, k) < TWO64
    ensures var r := AlignUp(addr, Pow(2, k));
            if addr + Pow(2, k) - 1 < TWO64
            then r % Pow(2, k) == 0 && addr <= r < addr + Pow(2, k)
            else r == 0 && addr > 0
  {
    PowBelow(k);
    CeilingOfSum(addr, k, Pow(2, k));
  }

  lemma CeilingOfSum(addr: u64, k: nat, align: u64)
    requires k < 64 && align == Pow(2, k)
    ensures var r := BitAnd(Add64(addr, align - 1), Not64(align - 1));
            if addr + align - 1 < TWO64
            then r % align == 0 && addr <= r < addr + align
            else r == 0 && addr > 0
  {
    var sum := Add64(addr, align - 1);
    MaskedWord(sum, k);
    if addr + align - 1 >= TWO64 {
      MultipleBelowOne(BitAnd(sum, Not64(align - 1)), align);
    }
  }

  /** The additions and subtractions wrap modulo 2^64, and undo each other. */
  lemma WordArithmetic(a: u64, b: u64)
    ensures Add64(a, b) == (a + b) % TWO64 && Sub64(a, b) == (a - b) % TWO64
    ensures Sub64(Add64(a, b), b) == a && Sub64(Add64(a, b), a) == b
  {
    DivModUnique(a + b, TWO64, if a + b < TWO64 then 0 else 1, Add64(a, b));
    DivModUnique(a - b, TWO64, if a >= b then 0 else -1, Sub64(a, b));
  }
}
