/** itoa and atoi (and their long versions): integers written into and read from byte memory. */
module IntegerText {
  import opened MachineWords
  import opened CString
  import opened Numerals

  const MINUS: byte := 45
  const PLUS: byte := 43

  /** The character for a digit; letters stand for ten and up. */
  function DigitChar(d: nat, lower: bool): byte {
    if d <= 9 then 48 + d else (d + (if lower then 87 else 55)) % 256
  }

  function Chars(digits: seq<nat>, lower: bool): (r: seq<byte>)
    ensures |r| == |digits|
  {
    seq(|digits|, i requires 0 <= i < |digits| => DigitChar(digits[i], lower))
  }

  /** The text of a number: a minus sign for a negative one, then the digits of its magnitude. */
  function SignedNumeral(n: int, base: nat): seq<byte>
    requires base >= 2
  {
    if n < 0 then [MINUS] + Chars(Digits(-n, base), true) else Chars(Digits(n, base), true)
  }

  /**
   * The character itoa writes for a remainder, which is negative for a negative number: those then
   * come out as characters below '0'.
   */
  function RemChar(rem: int): byte {
    (if rem > 9 then rem - 10 + 97 else rem + 48) % 256
  }

  function Signed(negative: bool, magnitude: int): int {
    if negative then -magnitude else magnitude
  }

  function RemChars(digits: seq<nat>, negative: bool): (r: seq<byte>)
    ensures |r| == |digits|
  {
    seq(|digits|, i requires 0 <= i < |digits| => RemChar(Signed(negative, digits[i])))
  }

  /** What itoa writes: the signed numeral, except that in another base than ten a negative number has no sign. */
  function Numeral(n: int, base: nat): seq<byte>
    requires base >= 2
  {
    if n < 0 && base != 10 then RemChars(Digits(-n, base), true) else SignedNumeral(n, base)
  }

  /** itoa writes the signed numeral if and only if the number is not negative or the base is ten. */
  lemma SignedNumeralIff(n: int, base: nat)
    requires base >= 2
    ensures Numeral(n, base) == SignedNumeral(n, base) <==> n >= 0 || base == 10
  {
    if n < 0 && base != 10 {
      assert |SignedNumeral(n, base)| == |Numeral(n, base)| + 1;
    }
  }

  /** An instance: -3 in base 16 comes out as a lone minus sign, the character three below '0'. */
  lemma NegativeHexIsGarbled()
    ensures Numeral(-3, 16) == [45] && SignedNumeral(-3, 16) == [45, 51]
  {
    assert Digits(3, 16) == [3];
  }

  /** Instances: the sign and the digits of -255, most significant first, and small letters. */
  lemma NumeralExamples()
    ensures Numeral(-255, 10) == Ascii("-255") && Numeral(48879, 16) == Ascii("beef")
  {
    assert Digits(255, 10) == Digits(25, 10) + [5] && Digits(25, 10) == Digits(2, 10) + [5];
    assert Digits(48879, 16) == Digits(3054, 16) + [15] && Digits(3054, 16) == Digits(190, 16) + [14];
    assert Digits(190, 16) == Digits(11, 16) + [14];
  }

  lemma RemCharsAreChars(digits: seq<nat>)
    ensures RemChars(digits, false) == Chars(digits, true)
  {
  }

  function Magnitude(n: int): nat {
    if n < 0 then -n else n
  }

  lemma CharsAreNonZero(digits: seq<nat>, base: nat, lower: bool)
    requires base <= 36 && AreDigits(digits, base)
    ensures NonZero(Chars(digits, lower))
  {
    forall i | 0 <= i < |digits|
      ensures Chars(digits, lower)[i] != 0
    {
      assert digits[i] < base;
    }
  }

  lemma RemCharsAreNonZero(digits: seq<nat>, base: nat)
    requires base <= 36 && AreDigits(digits, base)
    ensures NonZero(RemChars(digits, true))
  {
    forall i | 0 <= i < |digits|
      ensures RemChars(digits, true)[i] != 0
    {
      assert digits[i] < base;
    }
  }

  lemma NumeralIsText(n: int, base: nat)
    requires 2 <= base <= 36
    ensures NonZero(Numeral(n, base)) && Numeral(n, base) != []
  {
    DigitsDenote(Magnitude(n), base);
    CharsAreNonZero(Digits(Magnitude(n), base), base, true);
    RemCharsAreNonZero(Digits(Magnitude(n), base), base);
  }

  // ----- writing

  /** In the range from lo to hi the outermost k places on either side are swapped. */
  ghost predicate Swapped(was: seq<byte>, cur: seq<byte>, lo: nat, hi: nat, k: nat)
    requires lo <= hi <= |was|
  {
    && |cur| == |was|
    && forall i | 0 <= i < |was| ::
         cur[i] == was[if lo <= i < hi && (i < lo + k || hi - k <= i) then lo + hi - 1 - i else i]
  }

  lemma NothingSwapped(was: seq<byte>, lo: nat, hi: nat)
    requires lo <= hi <= |was|
    ensures Swapped(was, was, lo, hi, 0)
  {
  }

  lemma SwapStep(was: seq<byte>, cur: seq<byte>, lo: nat, hi: nat, k: nat)
    requires lo <= hi <= |was| && Swapped(was, cur, lo, hi, k) && lo + k < hi - 1 - k
    ensures var i, j := lo + k, hi - 1 - k; Swapped(was, cur[i := cur[j]][j := cur[i]], lo, hi, k + 1)
  {
  }

  lemma SwapDone(was: seq<byte>, cur: seq<byte>, lo: nat, hi: nat, k: nat)
    requires lo <= hi <= |was| && Swapped(was, cur, lo, hi, k) && hi - 1 - k <= lo + k
    ensures cur[lo..hi] == Reversed(was[lo..hi])
    ensures forall i | 0 <= i < |was| && !(lo <= i < hi) :: cur[i] == was[i]
  {
  }

  method Swap(m: array<byte>, i: nat, j: nat)
    requires i < m.Length && j < m.Length
    modifies m
    ensures m[..] == old(m[..])[i := old(m[j])][j := old(m[i])]
  {
    var temp := m[i];
    m[i] := m[j];
    m[j] := temp;
  }

  method Reverse(m: array<byte>, str: nat, length: nat)
    requires str + length <= m.Length
    modifies m
    ensures m[str..str + length] == Reversed(old(m[str..str + length]))
    ensures forall i | 0 <= i < m.Length && !(str <= i < str + length) :: m[i] == old(m[i])
  {
    hide Swapped, Reversed;
    ghost var was, limit := m[..], str + length;
    NothingSwapped(was, str, limit);
    var start, end := 0, length - 1;
    while start < end
      invariant 0 <= start <= end + 1 <= length && start + end == length - 1
      invariant Swapped(was, m[..], str, limit, start)
    {
      SwapStep(was, m[..], str, limit, start);
      Swap(m, str + start, str + end);
      start := start + 1;
      end := end - 1;
    }
    SwapDone(was, m[..], str, limit, start);
    assert forall i | 0 <= i < m.Length :: m[i] == m[..][i];
    assert was[str..limit] == old(m[str..str + length]) && m[..][str..limit] == m[str..str + length];
  }

  lemma LowFirstStep(n: nat, base: nat, lower: bool)
    requires base >= 2 && n > 0
    ensures n / base < n
    ensures Chars(LowFirst(n, base), lower) == [DigitChar(n % base, lower)] + Chars(LowFirst(n / base, base), lower)
  {
    QuotientShrinks(n, base);
  }

  /** One division step as the machine does it: both results take the sign of the number. */
  method Divide(n: int, base: nat) returns (quotient: int, rem: int)
    requires base >= 2 && n != 0
    ensures Magnitude(quotient) == Magnitude(n) / base && rem == Signed(n < 0, Magnitude(n) % base)
    ensures Magnitude(quotient) < Magnitude(n) && if n < 0 then quotient <= 0 else quotient >= 0
  {
    QuotientShrinks(Magnitude(n), base);
    if n < 0 {
      quotient, rem := -(-n / base), -(-n % base);
    } else {
      quotient, rem := n / base, n % base;
    }
  }

  /** One more character of a number written low end first. */
  lemma RemStep(n: nat, base: nat, negative: bool)
    requires base >= 2 && n > 0
    ensures RemChars(LowFirst(n, base), negative)
         == [RemChar(Signed(negative, n % base))] + RemChars(LowFirst(n / base, base), negative)
  {
    RemCharsCons(n % base, LowFirst(n / base, base), negative);
  }

  lemma RemCharsCons(d: nat, rest: seq<nat>, negative: bool)
    ensures RemChars([d] + rest, negative) == [RemChar(Signed(negative, d))] + RemChars(rest, negative)
  {
    hide RemChar, Signed;
  }

  /** A character moves from what is left to write to what is written. */
  lemma Moved(done: seq<byte>, c: byte, rest: seq<byte>, target: seq<byte>)
    requires done + ([c] + rest) == target
    ensures (done + [c]) + rest == target && |done| < |target|
  {
  }

  method Append(m: array<byte>, str: nat, i: nat, c: byte)
    requires str + i < m.Length
    modifies m
    ensures m[str..str + i + 1] == old(m[str..str + i]) + [c]
    ensures forall j | 0 <= j < m.Length && j != str + i :: m[j] == old(m[j])
  {
    m[str + i] := c;
  }

  /** itoa's digit loop: the digits of num, least significant first. */
  method PutLowFirst(m: array<byte>, str: nat, num: int, base: nat) returns (i: nat)
    requires 2 <= base && str + |LowFirst(Magnitude(num), base)| <= m.Length
    modifies m
    ensures i == |LowFirst(Magnitude(num), base)|
    ensures m[str..str + i] == RemChars(LowFirst(Magnitude(num), base), num < 0)
    ensures forall j | 0 <= j < m.Length && !(str <= j < str + i) :: m[j] == old(m[j])
  {
    var n := num;
    ghost var target := RemChars(LowFirst(Magnitude(num), base), num < 0);
    assert RemChars(LowFirst(0, base), num < 0) == [];
    hide RemChars, RemChar, LowFirst, Signed;
    i := 0;
    while n != 0
      invariant i <= |target| && if num < 0 then n <= 0 else n >= 0
      invariant m[str..str + i] + RemChars(LowFirst(Magnitude(n), base), num < 0) == target
      invariant forall j | 0 <= j < m.Length && !(str <= j < str + i) :: m[j] == old(m[j])
      decreases Magnitude(n)
    {
      RemStep(Magnitude(n), base, num < 0);
      var quotient, rem := Divide(n, base);
      Moved(m[str..str + i], RemChar(rem), RemChars(LowFirst(Magnitude(quotient), base), num < 0), target);
      Append(m, str, i, RemChar(rem));
      i := i + 1;
      n := quotient;
    }
  }

  lemma ZeroNumeral(base: nat)
    requires base >= 2
    ensures Numeral(0, base) == [48]
  {
  }

  /**
   * itoa for an integer type whose largest value is max (ltoa and lltoa differ only in the type).
   * The buffer ends up holding the numeral and its NUL, and nothing else changes.
   */
  method Itoa(num: int, m: array<byte>, str: nat, base: nat, max: nat) returns (r: nat)
    requires 2 <= base <= 36 && 0 <= num + max + (if base == 10 then 0 else 1) && num <= max
    requires str + |Numeral(num, base)| + 1 <= m.Length
    modifies m
    ensures r == str && IsString(m[..], str) && Text(m[..], str) == Numeral(num, base)
    ensures forall j | 0 <= j < m.Length && !(str <= j <= str + |Numeral(num, base)|) :: m[j] == old(m[j])
  {
    hide Numeral, Backwards, Reversed, IsString, Text, NonZero;
    NumeralIsText(num, base);
    ghost var t := Numeral(num, base);
    if num == 0 {
      ZeroNumeral(base);
      m[str] := 48;
      m[str + 1] := 0;
      assert m[..][str..str + 1] == [48];
      WrittenText(m[..], str, t);
      return str;
    }
    NumeralBackwards(num, base);
    var i := PutBackwards(num, m, str, base);
    Reverse(m, str, i);
    assert m[..][str..str + i] == m[str..str + i] == t;
    WrittenText(m[..], str, t);
    r := str;
  }

  /** itoa up to the reversal: digits low end first, the sign, and the NUL. */
  method PutBackwards(num: int, m: array<byte>, str: nat, base: nat) returns (i: nat)
    requires 2 <= base && num != 0
    requires str + |Backwards(num, base)| < m.Length
    modifies m
    ensures i == |Backwards(num, base)| && m[str..str + i] == Backwards(num, base) && m[str + i] == 0
    ensures forall j | 0 <= j < m.Length && !(str <= j <= str + i) :: m[j] == old(m[j])
  {
    var isNegative := num < 0 && base == 10;
    i := PutLowFirst(m, str, if isNegative then -num else num, base);
    RemCharsAreChars(LowFirst(Magnitude(num), base));
    if isNegative {
      m[str + i] := MINUS;
      i := i + 1;
    }
    m[str + i] := 0;
  }

  /** What itoa writes before it reverses the buffer. */
  function Backwards(n: int, base: nat): seq<byte>
    requires base >= 2
  {
    var digits := LowFirst(Magnitude(n), base);
    if n < 0 && base == 10 then Chars(digits, true) + [MINUS] else RemChars(digits, n < 0)
  }

  lemma NumeralBackwards(n: int, base: nat)
    requires base >= 2 && n != 0
    ensures Reversed(Backwards(n, base)) == Numeral(n, base)
    ensures |Backwards(n, base)| == |Numeral(n, base)|
  {
    var digits := LowFirst(Magnitude(n), base);
    LowFirstReversed(Magnitude(n), base);
    ReversedChars(digits);
    ReversedRemChars(digits);
    RemCharsAreChars(digits);
    ReversedCons(MINUS, Chars(digits, true));
  }

  lemma ReversedRemChars(digits: seq<nat>)
    ensures Reversed(RemChars(digits, true)) == RemChars(Reversed(digits), true)
  {
  }

  lemma ReversedChars(digits: seq<nat>)
    ensures Reversed(Chars(digits, true)) == Chars(Reversed(digits), true)
  {
  }

  lemma WrittenText(m: seq<byte>, p: nat, t: seq<byte>)
    requires p + |t| < |m| && m[p..p + |t|] == t && m[p + |t|] == 0 && NonZero(t)
    ensures IsString(m, p) && Text(m, p) == t
  {
    assert forall i | p <= i < p + |t| :: m[i] == t[i - p];
    EndIsFirstNul(m, p, p + |t|);
  }

  // ----- reading

  predicate IsSpace(c: byte) {
    c == 32 || 9 <= c <= 13
  }

  predicate IsDigit(c: byte) {
    48 <= c <= 57
  }

  function DropSpaces(t: seq<byte>): seq<byte> {
    if t != [] && IsSpace(t[0]) then DropSpaces(t[1..]) else t
  }

  function LeadingDigits(t: seq<byte>): (r: seq<nat>) {
    if t != [] && IsDigit(t[0]) then [t[0] - 48] + LeadingDigits(t[1..]) else []
  }

  /** The digits atoi reads: after leading spaces and an optional sign. */
  function DigitsRead(t: seq<byte>): seq<nat> {
    var u := DropSpaces(t);
    LeadingDigits(if u != [] && (u[0] == MINUS || u[0] == PLUS) then u[1..] else u)
  }

  function IsNegative(t: seq<byte>): bool {
    var u := DropSpaces(t);
    u != [] && u[0] == MINUS
  }

  function Parsed(t: seq<byte>): int {
    var v: int := Value(0, DigitsRead(t), 10);
    if IsNegative(t) then -v else v
  }

  /**
   * atoi for an integer type whose largest value is max. The intermediate results stay in range
   * exactly when the digits read denote at most max.
   */
  method Atoi(m: array<byte>, str: nat, max: nat) returns (r: int, ghost inRange: bool)
    requires IsString(m[..], str)
    ensures r == Parsed(Text(m[..], str))
    ensures inRange <==> Value(0, DigitsRead(Text(m[..], str)), 10) <= max
  {
    ghost var t := Text(m[..], str);
    var p: nat, sign := str, 1;
    while IsSpace(m[p])
      invariant IsString(m[..], p) && DropSpaces(Text(m[..], p)) == DropSpaces(t)
      decreases m.Length - p
    {
      TextStep(m[..], p);
      assert Text(m[..], p)[1..] == Text(m[..], p + 1);
      p := p + 1;
    }
    FirstBytes(m[..], p);
    assert Text(m[..], p) == DropSpaces(t);
    if m[p] == MINUS {
      sign := -1;
      TextStep(m[..], p);
      p := p + 1;
    } else if m[p] == PLUS {
      TextStep(m[..], p);
      p := p + 1;
    }
    var res: nat;
    res, inRange := ReadDigits(m, p, max);
    r := sign * res;
  }

  /** atoi's digit loop. */
  method ReadDigits(m: array<byte>, str: nat, max: nat) returns (res: nat, ghost inRange: bool)
    requires IsString(m[..], str)
    ensures res == Value(0, LeadingDigits(Text(m[..], str)), 10)
    ensures inRange <==> res <= max
  {
    var p: nat := str;
    res, inRange := 0, true;
    while IsDigit(m[p])
      invariant IsString(m[..], p)
      invariant Value(res, LeadingDigits(Text(m[..], p)), 10) == Value(0, LeadingDigits(Text(m[..], str)), 10)
      invariant inRange <==> res <= max
      decreases m.Length - p
    {
      TextStep(m[..], p);
      assert Text(m[..], p)[1..] == Text(m[..], p + 1);
      ghost var digits := LeadingDigits(Text(m[..], p));
      assert digits[1..] == LeadingDigits(Text(m[..], p + 1));
      inRange := inRange && res * 10 <= max && res * 10 + (m[p] - 48) <= max;
      res := res * 10 + (m[p] - 48);
      p := p + 1;
    }
    FirstBytes(m[..], p);
  }

  lemma {:induction false} DigitsReadBack(digits: seq<nat>, base: nat)
    requires base <= 10 && AreDigits(digits, base)
    ensures LeadingDigits(Chars(digits, true)) == digits
    decreases |digits|
  {
    if digits != [] {
      assert Chars(digits, true)[1..] == Chars(digits[1..], true);
      DigitsReadBack(digits[1..], base);
    }
  }

  /** The digit a character stands for. */
  function DigitOf(c: byte): nat {
    if c >= 97 then c - 87 else if c >= 65 then c - 55 else if c >= 48 then c - 48 else 0
  }

  function DigitsOf(t: seq<byte>): (r: seq<nat>)
    ensures |r| == |t|
  {
    seq(|t|, i requires 0 <= i < |t| => DigitOf(t[i]))
  }

  lemma CharsReadBack(digits: seq<nat>, lower: bool)
    requires AreDigits(digits, 36)
    ensures DigitsOf(Chars(digits, lower)) == digits
  {
    forall i | 0 <= i < |digits|
      ensures DigitOf(Chars(digits, lower)[i]) == digits[i]
    {
      assert digits[i] < 36;
    }
  }

  /** In every base up to 36 the characters itoa writes for a non-negative number denote it, without leading zero. */
  lemma NumeralDenotes(n: nat, base: nat)
    requires 2 <= base <= 36
    ensures Value(0, DigitsOf(Numeral(n, base)), base) == n && NoLeadingZero(DigitsOf(Numeral(n, base)))
  {
    DigitsDenote(n, base);
    CharsReadBack(Digits(n, base), true);
  }

  /** Reading back the decimal numeral of any integer gives that integer, within range at every step. */
  lemma ParsedInvertsNumeral(n: int)
    ensures Parsed(Numeral(n, 10)) == n
    ensures Value(0, DigitsRead(Numeral(n, 10)), 10) == Magnitude(n)
  {
    var magnitude: nat := Magnitude(n);
    var digits := Digits(magnitude, 10);
    DigitsDenote(magnitude, 10);
    DigitsReadBack(digits, 10);
    var t := Numeral(n, 10);
    assert IsDigit(Chars(digits, true)[0]);
    assert DropSpaces(t) == t;
    assert n < 0 ==> t[1..] == Chars(digits, true);
  }

  /** Printing an integer other than the type's minimum and reading it back gives the integer, without overflow. */
  method PrintThenRead(n: int, m: array<byte>, str: nat, max: nat) returns (r: int, ghost inRange: bool)
    requires 0 <= n + max && n <= max && str + |Numeral(n, 10)| + 1 <= m.Length
    modifies m
    ensures r == n && inRange
  {
    var s := Itoa(n, m, str, 10, max);
    ParsedInvertsNumeral(n);
    r, inRange := Atoi(m, s, max);
  }

  /** The buffer a caller must provide: one place per digit, one for a sign, one for the NUL. */
  lemma NumeralLength(n: int, base: nat, k: nat)
    requires base >= 2 && k >= 1 && 0 < n + Pow(base, k) && n < Pow(base, k)
    ensures |Numeral(n, base)| + 1 <= k + (if n < 0 && base == 10 then 2 else 1)
  {
    DigitCount(Magnitude(n), base, k);
  }

  // ----- what atoi reads, in terms of bytes alone

  /** A text taken apart: spaces, perhaps a sign, digits, and whatever follows that is no digit. */
  ghost predicate NumberText(spaces: seq<byte>, sign: seq<byte>, digits: seq<nat>, rest: seq<byte>) {
    && (forall i | 0 <= i < |spaces| :: spaces[i] == 32 || 9 <= spaces[i] <= 13)
    && (sign == [] || sign == [43] || sign == [45])
    && AreDigits(digits, 10)
    && (rest != [] ==> !(48 <= rest[0] <= 57))
    && (sign == [] && digits == [] && rest != [] ==>
          rest[0] != 43 && rest[0] != 45 && rest[0] != 32 && !(9 <= rest[0] <= 13))
  }

  lemma {:induction false} SpacesAreDropped(spaces: seq<byte>, u: seq<byte>)
    requires forall i | 0 <= i < |spaces| :: spaces[i] == 32 || 9 <= spaces[i] <= 13
    requires u != [] ==> u[0] != 32 && !(9 <= u[0] <= 13)
    ensures DropSpaces(spaces + u) == u
    decreases |spaces|
  {
    if spaces == [] {
      assert spaces + u == u;
    } else {
      assert (spaces + u)[1..] == spaces[1..] + u;
      SpacesAreDropped(spaces[1..], u);
    }
  }

  lemma {:induction false} DigitsAreRead(digits: seq<nat>, rest: seq<byte>)
    requires AreDigits(digits, 10) && (rest != [] ==> !(48 <= rest[0] <= 57))
    ensures LeadingDigits(Chars(digits, true) + rest) == digits
    decreases |digits|
  {
    var s := Chars(digits, true) + rest;
    if digits == [] {
      assert s == rest;
    } else {
      assert s[1..] == Chars(digits[1..], true) + rest;
      DigitsAreRead(digits[1..], rest);
    }
  }

  /** atoi skips leading spaces, takes one sign, and reads the decimal number up to the first other character. */
  lemma NumberIsRead(spaces: seq<byte>, sign: seq<byte>, digits: seq<nat>, rest: seq<byte>)
    requires NumberText(spaces, sign, digits, rest)
    ensures var v: int := Value(0, digits, 10);
            Parsed(spaces + (sign + (Chars(digits, true) + rest))) == if sign == [45] then -v else v
  {
    var w := Chars(digits, true) + rest;
    var u := sign + w;
    DigitsAreRead(digits, rest);
    SpacesAreDropped(spaces, u);
    assert sign == [] ==> u == w;
    assert sign != [] ==> u[1..] == w && u[0] == sign[0];
  }

  /** Every text can be taken apart so. */
  lemma {:induction false} EveryTextIsRead(t: seq<byte>)
    returns (spaces: seq<byte>, sign: seq<byte>, digits: seq<nat>, rest: seq<byte>)
    ensures NumberText(spaces, sign, digits, rest) && t == spaces + (sign + (Chars(digits, true) + rest))
    decreases |t|
  {
    if t != [] && (t[0] == 32 || 9 <= t[0] <= 13) {
      spaces, sign, digits, rest := EveryTextIsRead(t[1..]);
      spaces := [t[0]] + spaces;
    } else {
      spaces := [];
      sign := if t != [] && (t[0] == 43 || t[0] == 45) then [t[0]] else [];
      digits, rest := DigitsFirst(t[|sign|..]);
    }
  }

  lemma {:induction false} DigitsFirst(t: seq<byte>) returns (digits: seq<nat>, rest: seq<byte>)
    ensures AreDigits(digits, 10) && (rest != [] ==> !(48 <= rest[0] <= 57)) && t == Chars(digits, true) + rest
    decreases |t|
  {
    if t != [] && 48 <= t[0] <= 57 {
      digits, rest := DigitsFirst(t[1..]);
      digits := [t[0] - 48] + digits;
    } else {
      digits, rest := [], t;
    }
  }
}
