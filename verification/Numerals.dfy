/** Positional numerals: digit sequences, most significant first, and the numbers they denote. */
module Numerals {
  import opened MachineWords

  /** The number that the digits denote when read on from acc, as a left-to-right reader accumulates it. */
  function Value(acc: nat, digits: seq<nat>, base: nat): nat
    decreases |digits|
  {
    if digits == [] then acc else Value(acc * base + digits[0], digits[1..], base)
  }

  /** The digits of n from least to most significant; none for zero. */
  function LowFirst(n: nat, base: nat): (r: seq<nat>)
    requires base >= 2
    decreases n
  {
    if n == 0 then [] else
      QuotientShrinks(n, base);
      [n % base] + LowFirst(n / base, base)
  }

  /** The canonical numeral of n: no leading zero, and a single zero for zero. */
  function Digits(n: nat, base: nat): seq<nat>
    requires base >= 2
    decreases n
  {
    if n < base then [n] else
      QuotientShrinks(n, base);
      Digits(n / base, base) + [n % base]
  }

  ghost predicate AreDigits(digits: seq<nat>, base: nat) {
    forall i | 0 <= i < |digits| :: digits[i] < base
  }

  ghost predicate NoLeadingZero(digits: seq<nat>) {
    digits == [0] || (digits != [] && digits[0] != 0)
  }

  lemma QuotientShrinks(n: nat, base: nat)
    requires base >= 2
    ensures n / base <= n && (n > 0 ==> n / base < n) && n == base * (n / base) + n % base
    ensures n >= base ==> n / base > 0
    ensures n < base ==> n / base == 0 && n % base == n
  {
    var q := n / base;
    assert n == base * q + n % base;
    assert base * q >= 2 * q by {
      MulMonotone(2, base, q);
    }
    if n < base {
      SmallMod(n, base);
    }
  }

  lemma MulCommutes(a: nat, b: nat)
    ensures a * b == b * a
  {
  }

  lemma MulMonotone(a: nat, b: nat, c: nat)
    requires a <= b
    ensures a * c <= b * c && c * a <= c * b
  {
  }

  lemma {:induction false} ValueAppend(acc: nat, digits: seq<nat>, d: nat, base: nat)
    ensures Value(acc, digits + [d], base) == Value(acc, digits, base) * base + d
    decreases |digits|
  {
    if digits == [] {
      assert ([d])[1..] == [];
    } else {
      assert (digits + [d])[1..] == digits[1..] + [d];
      ValueAppend(acc * base + digits[0], digits[1..], d, base);
    }
  }

  /** Writing a number down and reading it back gives the number; the numeral is canonical. */
  lemma {:induction false} DigitsDenote(n: nat, base: nat)
    requires base >= 2
    ensures Value(0, Digits(n, base), base) == n
    ensures AreDigits(Digits(n, base), base) && NoLeadingZero(Digits(n, base))
    ensures n > 0 ==> Digits(n, base)[0] != 0
    decreases n
  {
    if n < base {
      assert Value(0, [n], base) == Value(n, [], base);
    } else {
      hide Value, AreDigits, NoLeadingZero;
      QuotientShrinks(n, base);
      DigitsDenote(n / base, base);
      DigitsNonEmpty(n / base, base);
      MulCommutes(base, n / base);
      AppendDigit(Digits(n / base, base), n % base, base);
    }
  }

  lemma AppendDigit(digits: seq<nat>, d: nat, base: nat)
    requires AreDigits(digits, base) && digits != [] && digits[0] != 0 && d < base
    ensures Value(0, digits + [d], base) == Value(0, digits, base) * base + d
    ensures AreDigits(digits + [d], base) && NoLeadingZero(digits + [d]) && (digits + [d])[0] == digits[0]
  {
    ValueAppend(0, digits, d, base);
  }

  /** Every canonical digit sequence is the numeral of the number it denotes. */
  lemma {:induction false} DigitsAreUnique(digits: seq<nat>, base: nat)
    requires base >= 2 && AreDigits(digits, base) && NoLeadingZero(digits)
    ensures Digits(Value(0, digits, base), base) == digits
    ensures digits != [0] ==> Value(0, digits, base) > 0
    decreases |digits|
  {
    if |digits| == 1 {
      assert Value(0, digits, base) == Value(digits[0], [], base);
    } else {
      var init, d := digits[..|digits| - 1], digits[|digits| - 1];
      assert digits == init + [d];
      DigitsAreUnique(init, base);
      ValueAppend(0, init, d, base);
      var v := Value(0, init, base);
      DivModUnique(v * base + d, base, v, d);
      assert v * base >= base by {
        MulMonotone(1, v, base);
      }
    }
  }

  /** A number needs at most k digits exactly when it is below base^k. */
  lemma {:induction false} DigitCount(n: nat, base: nat, k: nat)
    requires base >= 2 && k >= 1
    ensures |Digits(n, base)| <= k <==> n < Pow(base, k)
    decreases k
  {
    QuotientShrinks(n, base);
    if k == 1 {
      assert Pow(base, 1) == base * Pow(base, 0) == base;
      DigitsNonEmpty(n / base, base);
    } else {
      DigitCount(n / base, base, k - 1);
      QuotientBelow(n, base, Pow(base, k - 1));
      PowAtLeastBase(base, k);
    }
  }

  lemma QuotientBelow(n: nat, base: nat, p: nat)
    requires base >= 2
    ensures n / base < p <==> n < base * p
  {
    QuotientShrinks(n, base);
    var q := n / base;
    if q < p {
      MulMonotone(q + 1, p, base);
      assert base * (q + 1) == base * q + base;
    } else {
      MulMonotone(p, q, base);
    }
  }

  lemma DigitsNonEmpty(n: nat, base: nat)
    requires base >= 2
    ensures |Digits(n, base)| >= 1
  {
  }

  lemma {:induction false} PowAtLeastBase(base: nat, k: nat)
    requires base >= 2 && k >= 1
    ensures Pow(base, k) >= base
    decreases k
  {
    if k > 1 {
      PowAtLeastBase(base, k - 1);
      MulMonotone(1, Pow(base, k - 1), base);
    }
  }

  // ----- reversal

  function Reversed<T>(s: seq<T>): seq<T> {
    seq(|s|, i requires 0 <= i < |s| => s[|s| - 1 - i])
  }

  lemma ReversedCons<T>(x: T, s: seq<T>)
    ensures Reversed([x] + s) == Reversed(s) + [x]
    ensures Reversed(s + [x]) == [x] + Reversed(s)
  {
  }

  /** Reversing the digits produced low end first gives the numeral. */
  lemma {:induction false} LowFirstReversed(n: nat, base: nat)
    requires base >= 2 && n > 0
    ensures Reversed(LowFirst(n, base)) == Digits(n, base)
    decreases n
  {
    QuotientShrinks(n, base);
    ReversedCons(n % base, LowFirst(n / base, base));
    if n >= base {
      LowFirstReversed(n / base, base);
    }
  }

  /** The digits of n that fit in k places, padded with zeros in front. */
  function Fixed(n: nat, base: nat, k: nat): (r: seq<nat>)
    requires base >= 2
    ensures |r| == k
    decreases k
  {
    if k == 0 then [] else Fixed(n / base, base, k - 1) + [n % base]
  }

  /** Fixed keeps the low k digits: they denote the remainder by base^k. */
  lemma {:induction false} FixedDenotes(n: nat, base: nat, k: nat)
    requires base >= 2
    ensures Value(0, Fixed(n, base, k), base) == n % Pow(base, k) && AreDigits(Fixed(n, base, k), base)
    decreases k
  {
    if k > 0 {
      FixedDenotes(n / base, base, k - 1);
      ValueAppend(0, Fixed(n / base, base, k - 1), n % base, base);
      RemainderSplits(n, base, Pow(base, k - 1));
    }
  }

  lemma RemainderSplits(n: nat, base: nat, p: nat)
    requires base >= 1 && p >= 1
    ensures n % (base * p) == n / base % p * base + n % base
  {
    var u := n / base;
    var q, r: nat := u / p, u % p;
    assert n == base * u + n % base && u == p * q + r;
    assert r * base + n % base < base * p by {
      MulMonotone(r, p - 1, base);
    }
    assert n == q * (base * p) + (r * base + n % base);
    DivModUnique(n, base * p, q, r * base + n % base);
  }

  function Zeros(k: nat): seq<nat> {
    seq(k, _ => 0)
  }

  /** A number that fits in k places is padded, not cut. */
  lemma {:induction false} FixedIsPadded(n: nat, base: nat, k: nat)
    requires base >= 2 && k >= 1 && n < Pow(base, k)
    ensures |Digits(n, base)| <= k && Fixed(n, base, k) == Zeros(k - |Digits(n, base)|) + Digits(n, base)
    decreases k
  {
    DigitCount(n, base, k);
    QuotientShrinks(n, base);
    if n < base {
      FixedOfZero(base, k - 1);
      assert Fixed(n, base, k) == Zeros(k - 1) + [n];
    } else {
      DigitCount(n / base, base, k - 1);
      FixedIsPadded(n / base, base, k - 1);
    }
  }

  lemma {:induction false} FixedOfZero(base: nat, k: nat)
    requires base >= 2
    ensures Fixed(0, base, k) == Zeros(k)
  {
    if k > 0 {
      FixedOfZero(base, k - 1);
      SmallMod(0, base);
    }
  }
}
