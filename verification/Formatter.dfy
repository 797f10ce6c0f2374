/** The serial formatter: direct emission, buffered rendering with padding, and printf. */
module Formatter {
  import opened MachineWords
  import opened CString
  import opened Numerals
  import opened IntegerText
  import opened StringView
  import FS = FormatSpec

  // ----- shifts and masks as division

  lemma LowDigit(v: nat)
    ensures BitAnd(v, 15) == v % 16 && ShiftRight(v, 4) == v / 16
    ensures BitAnd(v, 1) == v % 2 && ShiftRight(v, 1) == v / 2
  {
    assert Pow(2, 4) == 16 && Pow(2, 1) == 2;
    ShiftFourMore(v, 0);
    ShiftOneMore(v, 0);
    LowMask(v, 4);
    LowBitsIsRemainder(v, 4);
    LowMask(v, 1);
    LowBitsIsRemainder(v, 1);
  }

  /** The digits in the order the fill loops produce them: at least one, low end first. */
  function Filled(v: nat, base: nat): (r: seq<nat>)
    requires base >= 2
    ensures r != []
  {
    if v == 0 then [0] else LowFirst(v, base)
  }

  lemma FilledReversed(v: nat, base: nat, lower: bool)
    requires base >= 2
    ensures |Filled(v, base)| == |Digits(v, base)|
    ensures Reversed(Chars(Filled(v, base), lower)) == Chars(Digits(v, base), lower)
  {
    if v > 0 {
      LowFirstReversed(v, base);
    }
    assert Reversed(Chars(Filled(v, base), lower)) == Chars(Reversed(Filled(v, base)), lower);
  }

  /** No 64-bit number outgrows the buffers. */
  lemma BuffersSuffice(v: u64)
    ensures |Digits(v, 16)| <= 16 && |Digits(v, 2)| <= 64 && |Digits(v, 10)| <= 20
  {
    PowersOfTheBases();
    DigitCount(v, 16, 16);
    DigitCount(v, 2, 64);
    DigitCount(v, 10, 20);
  }

  lemma MulAssociates(a: nat, b: nat, c: nat)
    ensures a * (b * c) == (a * b) * c
  {
  }

  lemma {:induction false} PowerAdds(base: nat, j: nat, k: nat)
    ensures Pow(base, j + k) == Pow(base, j) * Pow(base, k)
    decreases j
  {
    if j == 0 {
      assert Pow(base, 0) == 1;
    } else {
      PowerAdds(base, j - 1, k);
      PowerStep(base, j);
      PowerStep(base, j + k);
      hide Pow;
      MulAssociates(base, Pow(base, j - 1), Pow(base, k));
    }
  }

  lemma PowerStep(base: nat, j: nat)
    requires j > 0
    ensures Pow(base, j) == base * Pow(base, j - 1)
  {
  }

  lemma PowersOfTheBases()
    ensures Pow(16, 16) == TWO64 && Pow(2, 64) == TWO64 && Pow(10, 20) > TWO64
  {
    assert Pow(16, 4) == 0x1_0000 && Pow(2, 8) == 256 && Pow(10, 5) == 100000;
    hide Pow;
    PowerAdds(16, 4, 4);
    PowerAdds(16, 8, 8);
    PowerAdds(2, 8, 8);
    PowerAdds(2, 16, 16);
    PowerAdds(2, 32, 32);
    PowerAdds(10, 5, 5);
    PowerAdds(10, 10, 10);
  }

  /** Reading a rendered number back gives the number: no digit is lost, added or changed. */
  lemma RenderingIsLossless(v: u64, base: nat, lower: bool)
    requires base == 2 || base == 10 || base == 16
    ensures var t := Chars(Digits(v, base), lower);
            && Value(0, DigitsOf(t), base) == v
            && NoLeadingZero(DigitsOf(t))
            && |t| <= (if base == 2 then 64 else if base == 10 then 20 else 16)
  {
    var digits := Digits(v, base);
    DigitsDenote(v, base);
    BuffersSuffice(v);
    CharsReadBack(digits, lower);
  }

  /** put_hex and put_bin emit, after the prefix, the buffered rendering zero-padded to the same width. */
  lemma FamiliesAgree(v: u64, base: nat, width: nat)
    requires base >= 2 && width >= 1 && v < Pow(base, width)
    ensures Chars(Fixed(v, base, width), false) == FS.Padded(Chars(Digits(v, base), false), width, true)
  {
    FixedIsPadded(v, base, width);
    var digits := Digits(v, base);
    assert Chars(Zeros(width - |digits|) + digits, false) == seq(width - |digits|, _ => FS.ZERO) + Chars(digits, false);
  }

  /** What put_hex and put_bin send for k places: capital letters, and the low k digits of the value. */
  lemma FixedSpells(v: nat, base: nat, k: nat)
    requires 2 <= base <= 16
    ensures var digits, t := Fixed(v, base, k), Chars(Fixed(v, base, k), false);
            && |t| == |digits| == k && Value(0, digits, base) == v % Pow(base, k)
            && forall i | 0 <= i < k ::
                 digits[i] < base && t[i] == if digits[i] < 10 then 48 + digits[i] else 65 + digits[i] - 10
  {
    FixedDenotes(v, base, k);
    hide Fixed, Value, Pow;
  }

  lemma {:induction false} ShiftOneMore(v: nat, i: nat)
    ensures ShiftRight(v, i + 1) == ShiftRight(v, i) / 2
    decreases i
  {
    if i > 0 {
      ShiftOneMore(v / 2, i - 1);
    }
  }

  lemma ShiftFourMore(v: nat, i: nat)
    ensures ShiftRight(v, i + 4) == ShiftRight(v, i) / 16
  {
    ShiftOneMore(v, i);
    ShiftOneMore(v, i + 1);
    ShiftOneMore(v, i + 2);
    ShiftOneMore(v, i + 3);
  }

  /** One more digit of a fixed-width numeral, as the emitting loops add it. */
  lemma FixedStep(v: nat, base: nat, k: nat)
    requires base >= 2 && k >= 1
    ensures Chars(Fixed(v, base, k), false) == Chars(Fixed(v / base, base, k - 1), false) + [DigitChar(v % base, false)]
  {
  }

  /** What put_hex has sent of n digits while k are still to come. */
  function HexSent(v: nat, n: nat, k: nat): seq<byte>
    requires k <= n
  {
    Chars(Fixed(ShiftRight(v, 4 * k), 16, n - k), false)
  }

  /** The digit that put_hex adds. */
  lemma HexStep(v: nat, n: nat, k: nat)
    requires 1 <= k <= n
    ensures HexSent(v, n, k - 1) == HexSent(v, n, k) + [DigitChar(BitAnd(ShiftRight(v, 4 * k - 4), 15), false)]
  {
    var i: nat := 4 * k - 4;
    ShiftFourMore(v, i);
    LowDigit(ShiftRight(v, i));
    FixedStep(ShiftRight(v, i), 16, n - k + 1);
  }

  lemma HexEnds(v: nat, n: nat)
    ensures HexSent(v, n, n) == [] && HexSent(v, n, 0) == Chars(Fixed(v, 16, n), false)
  {
  }

  /** What put_bin has sent of n bits while k are still to come. */
  function BinSent(v: nat, n: nat, k: nat): seq<byte>
    requires k <= n
  {
    Chars(Fixed(ShiftRight(v, k), 2, n - k), false)
  }

  /** The bit that put_bin adds. */
  lemma BinStep(v: nat, n: nat, k: nat)
    requires 1 <= k <= n
    ensures BinSent(v, n, k - 1) == BinSent(v, n, k) + [if BitAnd(ShiftRight(v, k - 1), 1) != 0 then 49 else 48]
  {
    ShiftOneMore(v, k - 1);
    LowDigit(ShiftRight(v, k - 1));
    FixedStep(ShiftRight(v, k - 1), 2, n - k + 1);
  }

  lemma BinEnds(v: nat, n: nat)
    ensures BinSent(v, n, n) == [] && BinSent(v, n, 0) == Chars(Fixed(v, 2, n), false)
  {
  }

  /** The first turn of the do-while loop that produces decimal digits. */
  lemma FillStart(v: nat)
    ensures Chars(Filled(v, 10), false) == [DigitChar(v % 10, false)] + Chars(LowFirst(v / 10, 10), false)
    ensures Chars(LowFirst(0, 10), false) == []
  {
    QuotientShrinks(v, 10);
  }

  /** A fill loop stops with nothing left, or with the buffer's places used up: then nothing was left either. */
  lemma FillEnds(done: seq<byte>, rest: seq<byte>, target: seq<byte>)
    requires done + rest == target && (rest == [] || |target| <= |done|)
    ensures done == target
  {
    assert rest == [];
  }

  lemma NoDigits(places: int, v: nat, base: nat)
    requires base >= 2
    ensures places <= 0 ==> Chars(Fixed(v, base, 0), false) == []
  {
  }

  // ----- one step of a loop

  lemma DigitStep(t: seq<byte>, width: nat)
    requires t != [] && IsDigit(t[0])
    ensures |LeadingDigits(t)| == 1 + |LeadingDigits(t[1..])|
    ensures Value(width, LeadingDigits(t), 10) == Value(width * 10 + (t[0] - 48), LeadingDigits(t[1..]), 10)
  {
    assert LeadingDigits(t)[1..] == LeadingDigits(t[1..]);
  }

  /** What is left to print at the i-th item: the item, a separator unless it is the last, and the others. */
  lemma ItemStep(m: seq<byte>, items: seq<FS.Printable>, i: nat, before: seq<byte>)
    requires i < |items| && forall j | 0 <= j < |items| :: items[j].Valid(m)
    ensures before + FS.Joined(FS.Parts(m, items[i..]))
         == before + FS.Printed(m, items[i]) + (if i + 1 < |items| then FS.SEPARATOR else [])
            + FS.Joined(FS.Parts(m, items[i + 1..]))
  {
    assert items[i..][1..] == items[i + 1..];
    assert FS.Parts(m, items[i..])[1..] == FS.Parts(m, items[i + 1..]);
  }

  lemma Parenthesised(a: seq<byte>, b: seq<byte>, c: seq<byte>)
    ensures a + [40] + b + FS.SEPARATOR + c + [41] == a + ([40] + b + FS.SEPARATOR + c + [41])
  {
  }

  lemma Bracketed(a: seq<byte>, b: seq<byte>)
    ensures a + [91] + b + [93] == a + ([91] + b + [93])
  {
  }

  lemma NoItemsLeft(m: seq<byte>, items: seq<FS.Printable>)
    ensures FS.Joined(FS.Parts(m, items[|items|..])) == []
  {
  }

  lemma NextByte(m: seq<byte>, p: nat)
    requires IsString(m, p) && m[p] != 0
    ensures p + 1 < |m| && IsString(m, p + 1)
  {
  }

  lemma FormatEnds(m: seq<byte>, p: nat, args: seq<FS.Arg>)
    requires p < |m| && m[p] == 0
    requires args != [] && FS.AllValid(m, args)
    ensures FS.Format(m, Text(m, p), args) == [] && FS.WidthsFit(Text(m, p), |args|)
  {
    FirstBytes(m, p);
  }

  lemma Regroup(a: seq<byte>, b: seq<byte>, c: seq<byte>)
    ensures a + (b + c) == (a + b) + c
  {
  }

  /** Everything sent once the format from p on has been printed. */
  ghost function Sent(before: seq<byte>, m: seq<byte>, p: nat, args: seq<FS.Arg>): seq<byte>
    requires p <= |m| && FS.AllValid(m, args)
  {
    before + FS.Format(m, Text(m, p), args)
  }

  /** A literal at p, followed by the format that starts at q. */
  lemma LiteralAt(m: seq<byte>, p: nat, q: nat, l: FS.Literal, args: seq<FS.Arg>, before: seq<byte>)
    requires p <= |m| && q <= |m| && l.Valid() && Text(m, p) == l.Source() + Text(m, q)
    requires args != [] && FS.AllValid(m, args)
    ensures Sent(before, m, p, args) == Sent(before + l.Output(), m, q, args)
    ensures FS.WidthsFit(Text(m, p), |args|) == FS.WidthsFit(Text(m, q), |args|)
  {
    FS.LiteralStep(m, l, Text(m, q), args);
    FS.LiteralHasNoWidth(l, Text(m, q), |args|);
    Regroup(before, l.Output(), FS.Format(m, Text(m, q), args));
  }

  lemma BraceStep(m: seq<byte>, p: nat, args: seq<FS.Arg>, before: seq<byte>)
    requires IsString(m, p) && p + 1 < |m| && m[p] == FS.OPEN && m[p + 1] == FS.OPEN
    requires args != [] && FS.AllValid(m, args)
    ensures IsString(m, p + 2) && p + 2 < |m|
    ensures Sent(before, m, p, args) == Sent(before + [FS.OPEN], m, p + 2, args)
    ensures FS.WidthsFit(Text(m, p), |args|) == FS.WidthsFit(Text(m, p + 2), |args|)
  {
    hide Text, StrEnd, FS.Format, FS.WidthsFit, FS.Render, Sent;
    TextStep(m, p);
    TextStep(m, p + 1);
    Regroup([m[p]], [m[p + 1]], Text(m, p + 2));
    assert Text(m, p) == [FS.OPEN, FS.OPEN] + Text(m, p + 2);
    LiteralAt(m, p, p + 2, FS.Brace, args, before);
  }

  lemma PlainStep(m: seq<byte>, p: nat, args: seq<FS.Arg>, before: seq<byte>)
    requires IsString(m, p) && m[p] != 0 && m[p] != FS.OPEN
    requires args != [] && FS.AllValid(m, args)
    ensures IsString(m, p + 1) && p + 1 < |m|
    ensures Sent(before, m, p, args) == Sent(before + FS.CrlfByte(m[p]), m, p + 1, args)
    ensures FS.WidthsFit(Text(m, p), |args|) == FS.WidthsFit(Text(m, p + 1), |args|)
  {
    TextStep(m, p);
    hide FS.Format, FS.WidthsFit, Text, StrEnd, Sent;
    LiteralAt(m, p, p + 1, FS.Plain(m[p]), args, before);
  }

  /** The pieces of the text around a placeholder whose specification has n bytes. */
  lemma PlaceholderPieces(m: seq<byte>, p: nat, n: nat, next: nat)
    requires IsString(m, p) && IsString(m, p + 1 + n) && m[p] != 0
    requires n <= |Text(m, p + 1)|
    requires m[p + 1 + n] == 0 || m[p + 1 + n] == FS.CLOSE
    requires next == if m[p + 1 + n] == FS.CLOSE then p + n + 2 else p + 1 + n
    ensures IsString(m, next)
    ensures var t := Text(m, p);
            && n + 1 <= |t| && t[1..] == Text(m, p + 1) && t[1..n + 1] == m[p + 1..p + 1 + n]
            && FS.DropFirst(t[n + 1..], FS.CLOSE) == Text(m, next)
  {
    TextStep(m, p);
    TextSuffix(m, p, p + 1 + n);
    FirstBytes(m, p + 1 + n);
    assert Text(m, p)[n + 1..] == Text(m, p + 1 + n);
    var t, u := Text(m, p), Text(m, p + 1);
    assert t[1..] == u;
    assert t[1..n + 1] == u[..n];
    assert u[..n] == m[p + 1..p + 1 + n];
    if m[p + 1 + n] == FS.CLOSE {
      TextStep(m, p + 1 + n);
      assert Text(m, p + 1 + n)[1..] == Text(m, next);
    }
  }

  /** A placeholder at p whose specification has n bytes, followed by the format that starts at next. */
  lemma PlaceholderOutput(m: seq<byte>, p: nat, n: nat, next: nat, args: seq<FS.Arg>)
    requires IsString(m, p) && IsString(m, p + 1) && m[p] == FS.OPEN && m[p + 1] != FS.OPEN
    requires args != [] && FS.AllValid(m, args)
    requires n == FS.SpecLength(Text(m, p + 1)) && IsString(m, p + 1 + n)
    requires m[p + 1 + n] == 0 || m[p + 1 + n] == FS.CLOSE
    requires next == if m[p + 1 + n] == FS.CLOSE then p + n + 2 else p + 1 + n
    ensures IsString(m, next)
    ensures FS.Format(m, Text(m, p), args)
         == FS.Render(m, args[0], FS.ParseSpec(m[p + 1..p + 1 + n])) + FS.Format(m, Text(m, next), args[1..])
    ensures FS.WidthsFit(Text(m, p), |args|) <==>
      FS.ParseSpec(m[p + 1..p + 1 + n]).width <= FS.MAX_WIDTH && FS.WidthsFit(Text(m, next), |args| - 1)
  {
    PlaceholderPieces(m, p, n, next);
    FirstBytes(m, p);
    FirstBytes(m, p + 1);
    FS.PlaceholderStep(m, Text(m, p), args);
    FS.WidthsStep(Text(m, p), |args|);
  }

  lemma CrlfStep(m: seq<byte>, p: nat, before: seq<byte>)
    requires IsString(m, p) && m[p] != 0
    ensures p + 1 < |m| && IsString(m, p + 1)
    ensures before + FS.Crlf(Text(m, p)) == (before + FS.CrlfByte(m[p])) + FS.Crlf(Text(m, p + 1))
  {
    TextStep(m, p);
    assert Text(m, p)[1..] == Text(m, p + 1);
  }

  lemma CrlfEnds(m: seq<byte>, p: nat)
    requires p < |m| && m[p] == 0
    ensures FS.Crlf(Text(m, p)) == []
  {
    FirstBytes(m, p);
  }

  class FmtBase {
    /** Every byte sent to the serial port so far. */
    ghost var out: seq<byte>

    const hexBuffer: array<byte>
    const binBuffer: array<byte>
    const decBuffer: array<byte>

    ghost predicate Valid() {
      && hexBuffer.Length == 16 && binBuffer.Length == 64 && decBuffer.Length == 24
      && hexBuffer != binBuffer && hexBuffer != decBuffer && binBuffer != decBuffer
    }

    constructor ()
      ensures Valid() && out == []
      ensures fresh(hexBuffer) && fresh(binBuffer) && fresh(decBuffer)
    {
      hexBuffer, binBuffer, decBuffer := new byte[16], new byte[64], new byte[24];
      out := [];
    }

    method Put(c: byte)
      modifies this
      ensures out == old(out) + [c]
    {
      out := out + [c];
    }

    /** One character, a newline with a carriage return before it. */
    method PutCrlf(c: byte)
      modifies this
      ensures out == old(out) + FS.CrlfByte(c)
    {
      if c == FS.NEWLINE {
        Put(FS.RETURN);
      }
      Put(c);
    }

    method Puts(m: array<byte>, s: nat)
      requires IsString(m[..], s)
      modifies this
      ensures out == old(out) + FS.Crlf(Text(m[..], s))
    {
      ghost var mem := m[..];
      assert s < |mem|;
      hide FS.Crlf, FS.CrlfByte, Text, StrEnd, IsString;
      var p: nat := s;
      while m[p] != 0
        invariant p < |mem| && IsString(mem, p)
        invariant out + FS.Crlf(Text(mem, p)) == old(out) + FS.Crlf(Text(mem, s))
        decreases m.Length - p
      {
        CrlfStep(mem, p, out);
        PutCrlf(m[p]);
        p := p + 1;
      }
      CrlfEnds(mem, p);
    }

    // ----- direct emission

    method PutHex(v: u64, digits: int)
      requires digits <= 16
      modifies this
      ensures out == old(out) + [48, 120] + if digits > 0 then Chars(Fixed(v, 16, digits), false) else []
    {
      hide Chars, Fixed, ShiftRight, BitAnd, DigitChar, HexSent;
      Put(48);
      Put(120);
      ghost var start := out;
      ghost var n: nat, k: nat := if digits > 0 then digits else 0, if digits > 0 then digits else 0;
      HexEnds(v, n);
      var i := (digits - 1) * 4;
      while i >= 0
        invariant k <= n && (i == 4 * k - 4 || (i < 0 && k == 0))
        invariant out == start + HexSent(v, n, k)
        decreases i
      {
        HexStep(v, n, k);
        Regroup(start, HexSent(v, n, k), [DigitChar(BitAnd(ShiftRight(v, i), 15), false)]);
        Put(DigitChar(BitAnd(ShiftRight(v, i), 15), false));
        i := i - 4;
        k := k - 1;
      }
      NoDigits(digits, v, 16);
    }

    method PutBin(v: u64, bits: int)
      requires bits <= 64
      modifies this
      ensures out == old(out) + [48, 98] + if bits > 0 then Chars(Fixed(v, 2, bits), false) else []
    {
      hide Chars, Fixed, ShiftRight, BitAnd, BinSent;
      Put(48);
      Put(98);
      ghost var start := out;
      ghost var n: nat, k: nat := if bits > 0 then bits else 0, if bits > 0 then bits else 0;
      BinEnds(v, n);
      var i := bits - 1;
      while i >= 0
        invariant k <= n && (i == k - 1 || (i < 0 && k == 0))
        invariant out == start + BinSent(v, n, k)
        decreases i
      {
        BinStep(v, n, k);
        Regroup(start, BinSent(v, n, k), [if BitAnd(ShiftRight(v, i), 1) != 0 then 49 else 48]);
        Put(if BitAnd(ShiftRight(v, i), 1) != 0 then 49 else 48);
        i := i - 1;
        k := k - 1;
      }
      NoDigits(bits, v, 2);
    }

    method PutDec(v: u64)
      modifies this
      ensures out == old(out) + Chars(Digits(v, 10), false)
    {
      var buf := new byte[24];
      var len := FillDecimal(buf, v);
      FilledReversed(v, 10, false);
      PutBackwards(buf, len);
    }

    method PutBackwards(buf: array<byte>, length: nat)
      requires length <= buf.Length
      modifies this
      ensures out == old(out) + Reversed(buf[..length])
    {
      var len := length;
      while len != 0
        invariant 0 <= len <= length
        invariant out == old(out) + Reversed(buf[len..length])
        decreases len
      {
        len := len - 1;
        assert buf[len..length] == [buf[len]] + buf[len + 1..length];
        ReversedCons(buf[len], buf[len + 1..length]);
        Put(buf[len]);
      }
      assert buf[0..length] == buf[..length];
    }

    // ----- rendering into buffers

    /** The do-while loop of put_dec and make_dec_string; its guard on the buffer never cuts a number short. */
    method FillDecimal(buf: array<byte>, value: u64) returns (len: nat)
      requires buf.Length == 24
      modifies buf
      ensures len <= 20 && buf[..len] == Chars(Filled(value, 10), false)
    {
      var v: nat := value;
      BuffersSuffice(value);
      FilledReversed(value, 10, false);
      ghost var target := Chars(Filled(value, 10), false);
      FillStart(value);
      hide Chars, DigitChar, LowFirst, Filled;
      buf[0] := DigitChar(v % 10, false);
      v := v / 10;
      len := 1;
      assert buf[..1] == [DigitChar(value % 10, false)];
      while v != 0 && len < 24
        invariant 1 <= len <= 24
        invariant buf[..len] + Chars(LowFirst(v, 10), false) == target
        decreases v
      {
        ghost var done, c := buf[..len], DigitChar(v % 10, false);
        LowFirstStep(v, 10, false);
        Regroup(done, [c], Chars(LowFirst(v / 10, 10), false));
        buf[len] := DigitChar(v % 10, false);
        assert buf[..len + 1] == done + [c];
        v := v / 10;
        len := len + 1;
      }
      FillEnds(buf[..len], Chars(LowFirst(v, 10), false), target);
    }

    /** The closing loop of the make_*_string functions. */
    method SwapHalves(buf: array<byte>, len: nat)
      requires len <= buf.Length
      modifies buf
      ensures buf[..len] == Reversed(old(buf[..len]))
    {
      var i := 0;
      while i < len / 2
        invariant 0 <= i <= len / 2
        invariant forall j | 0 <= j < i || len - i <= j < len :: buf[j] == old(buf[len - 1 - j])
        invariant forall j | i <= j < len - i :: buf[j] == old(buf[j])
      {
        var t := buf[i];
        buf[i] := buf[len - 1 - i];
        buf[len - 1 - i] := t;
        i := i + 1;
      }
      assert forall j | 0 <= j < len :: buf[j] == old(buf[len - 1 - j]);
    }

    method MakeDecString(v: u64) returns (len: nat)
      requires Valid()
      modifies decBuffer
      ensures len <= 24 && decBuffer[..len] == Chars(Digits(v, 10), false)
    {
      len := FillDecimal(decBuffer, v);
      FilledReversed(v, 10, false);
      SwapHalves(decBuffer, len);
    }

    /** make_hex_string's digit loop. */
    method FillHex(value: u64, lowercase: bool) returns (len: nat)
      requires Valid()
      modifies hexBuffer
      ensures len <= 16 && hexBuffer[..len] == Chars(LowFirst(value, 16), lowercase)
    {
      FilledReversed(value, 16, lowercase);
      BuffersSuffice(value);
      var v: nat := value;
      len := 0;
      ghost var target := Chars(LowFirst(value, 16), lowercase);
      assert |target| <= 16 && Chars(LowFirst(0, 16), lowercase) == [];
      hide Chars, DigitChar, LowFirst, BitAnd, ShiftRight;
      while v != 0 && len < 16
        invariant len <= 16
        invariant hexBuffer[..len] + Chars(LowFirst(v, 16), lowercase) == target
        decreases v
      {
        ghost var done, c := hexBuffer[..len], DigitChar(v % 16, lowercase);
        LowFirstStep(v, 16, lowercase);
        LowDigit(v);
        Regroup(done, [c], Chars(LowFirst(v / 16, 16), lowercase));
        hexBuffer[len] := DigitChar(BitAnd(v, 15), lowercase);
        assert hexBuffer[..len + 1] == done + [c];
        v := ShiftRight(v, 4);
        len := len + 1;
      }
      FillEnds(hexBuffer[..len], Chars(LowFirst(v, 16), lowercase), target);
    }

    method MakeHexString(v: u64, lowercase: bool) returns (len: nat)
      requires Valid()
      modifies hexBuffer
      ensures len <= 16 && hexBuffer[..len] == Chars(Digits(v, 16), lowercase)
    {
      FilledReversed(v, 16, lowercase);
      if v == 0 {
        hexBuffer[0] := 48;
        return 1;
      }
      len := FillHex(v, lowercase);
      SwapHalves(hexBuffer, len);
    }

    /** make_bin_string's digit loop. */
    method FillBin(value: u64) returns (len: nat)
      requires Valid()
      modifies binBuffer
      ensures len <= 64 && binBuffer[..len] == Chars(LowFirst(value, 2), false)
    {
      FilledReversed(value, 2, false);
      BuffersSuffice(value);
      var v: nat := value;
      len := 0;
      ghost var target := Chars(LowFirst(value, 2), false);
      assert |target| <= 64 && Chars(LowFirst(0, 2), false) == [];
      assert DigitChar(0, false) == 48 && DigitChar(1, false) == 49;
      hide Chars, DigitChar, LowFirst, BitAnd, ShiftRight;
      while v != 0 && len < 64
        invariant len <= 64
        invariant binBuffer[..len] + Chars(LowFirst(v, 2), false) == target
        decreases v
      {
        ghost var done, c := binBuffer[..len], DigitChar(v % 2, false);
        LowFirstStep(v, 2, false);
        LowDigit(v);
        Regroup(done, [c], Chars(LowFirst(v / 2, 2), false));
        binBuffer[len] := if BitAnd(v, 1) != 0 then 49 else 48;
        assert binBuffer[..len + 1] == done + [c];
        v := ShiftRight(v, 1);
        len := len + 1;
      }
      FillEnds(binBuffer[..len], Chars(LowFirst(v, 2), false), target);
    }

    method MakeBinString(v: u64) returns (len: nat)
      requires Valid()
      modifies binBuffer
      ensures len <= 64 && binBuffer[..len] == Chars(Digits(v, 2), false)
    {
      FilledReversed(v, 2, false);
      if v == 0 {
        binBuffer[0] := 48;
        return 1;
      }
      len := FillBin(v);
      SwapHalves(binBuffer, len);
    }

    method PrintPadded(buf: array<byte>, len: nat, width: nat, zeroPad: bool)
      requires len <= buf.Length
      modifies this
      ensures out == old(out) + FS.Padded(buf[..len], width, zeroPad)
    {
      var pad := width - len;
      ghost var total: nat := if pad > 0 then pad else 0;
      var c := if zeroPad then FS.ZERO else FS.SPACE;
      if pad > 0 {
        while pad != 0
          invariant 0 <= pad <= total
          invariant out == old(out) + seq(total - pad, _ => c)
        {
          pad := pad - 1;
          Put(c);
        }
      }
      ghost var padded := out;
      var i := 0;
      while i < len
        invariant 0 <= i <= len && out == padded + buf[..i]
      {
        Put(buf[i]);
        i := i + 1;
      }
      assert padded == old(out) + seq(total, _ => c);
      assert FS.Padded(buf[..len], width, zeroPad) == seq(total, _ => c) + buf[..len];
    }

    // ----- printf

    /** The arguments live in another memory than the formatter's own buffers. */
    ghost predicate Apart(m: array<byte>) {
      Valid() && m != hexBuffer && m != binBuffer && m != decBuffer
    }

    /** parse_spec; the width stays in the range of its 32-bit type exactly when the one that is written does. */
    method ParseSpec(m: array<byte>, spec: nat, len: nat) returns (fs: FS.Spec, ghost inRange: bool)
      requires spec + len <= m.Length
      ensures fs == FS.ParseSpec(m[spec..spec + len])
      ensures inRange <==> fs.width <= FS.MAX_WIDTH
    {
      hide FS.ParseSpec, FS.DropFirst, FS.StartsWithByte, LeadingDigits, Value;
      var end := spec + len;
      var alternate, zeroPad, start := ParseFlags(m, spec, end);
      var width, i;
      width, i, inRange := ParseWidth(m, start, end);
      var kind := ParseKind(m, start, i, end);
      FS.SpecOfFields(m[spec..end], alternate, zeroPad, m[start..end], kind);
      fs := FS.Spec(alternate, zeroPad, width, kind);
    }

    /** The type: what follows the width. */
    method ParseKind(m: array<byte>, start: nat, i: nat, end: nat) returns (kind: byte)
      requires start <= i <= end <= m.Length
      ensures kind == if i < end then m[start..end][i - start] else 0
    {
      kind := 0;
      if i < end {
        kind := m[i];
      }
    }

    /** The three optional characters that parse_spec reads first. */
    method ParseFlags(m: array<byte>, spec: nat, end: nat) returns (alternate: bool, zeroPad: bool, i: nat)
      requires spec <= end <= m.Length
      ensures spec <= i <= end
      ensures var a := FS.DropFirst(m[spec..end], FS.COLON);
              var b := FS.DropFirst(a, FS.HASH);
              && alternate == FS.StartsWithByte(a, FS.HASH) && zeroPad == FS.StartsWithByte(b, FS.ZERO)
              && m[i..end] == FS.DropFirst(b, FS.ZERO)
    {
      hide FS.DropFirst, FS.StartsWithByte;
      var _, a := Accept(m, spec, end, FS.COLON);
      alternate, i := Accept(m, a, end, FS.HASH);
      zeroPad, i := Accept(m, i, end, FS.ZERO);
    }

    /** One optional character. */
    method Accept(m: array<byte>, start: nat, end: nat, c: byte) returns (found: bool, i: nat)
      requires start <= end <= m.Length
      ensures start <= i <= end
      ensures found == FS.StartsWithByte(m[start..end], c) && m[i..end] == FS.DropFirst(m[start..end], c)
    {
      found, i := false, start;
      if i < end && m[i] == c {
        found := true;
        i := i + 1;
      }
    }

    /** The width loop of parse_spec. */
    method ParseWidth(m: array<byte>, start: nat, end: nat) returns (width: nat, i: nat, ghost inRange: bool)
      requires start <= end <= m.Length
      ensures i == start + |LeadingDigits(m[start..end])| <= end
      ensures width == Value(0, LeadingDigits(m[start..end]), 10)
      ensures inRange <==> width <= FS.MAX_WIDTH
    {
      ghost var all := LeadingDigits(m[start..end]);
      width, i, inRange := 0, start, true;
      while i < end && IsDigit(m[i])
        invariant start <= i <= end && (inRange <==> width <= FS.MAX_WIDTH)
        invariant i + |LeadingDigits(m[i..end])| == start + |all|
        invariant Value(width, LeadingDigits(m[i..end]), 10) == Value(0, all, 10)
      {
        DigitStep(m[i..end], width);
        assert m[i..end][1..] == m[i + 1..end];
        inRange := inRange && width * 10 <= FS.MAX_WIDTH && width * 10 + (m[i] - 48) <= FS.MAX_WIDTH;
        width := width * 10 + (m[i] - 48);
        i := i + 1;
      }
    }

    /** route for an integral argument. */
    method RouteInt(v: u64, fs: FS.Spec) returns (ghost sent: FS.Shown)
      requires Valid()
      modifies this, hexBuffer, binBuffer, decBuffer
      ensures out == old(out) + (sent.prefix + (sent.padding + sent.text)) && FS.ShowsInteger(sent, v, fs)
      ensures out == old(out) + FS.RenderInt(v, fs)
    {
      ghost var prefix := if fs.alternate then FS.BasePrefix(fs.kind) else [];
      ghost var digits := Chars(Digits(v, FS.BaseOf(fs.kind)), fs.kind == 120);
      Regroup(out, prefix, FS.Padded(digits, fs.width, fs.zeroPad));
      PutPrefix(fs);
      var len: nat;
      if fs.kind == 120 || fs.kind == 88 {
        len := MakeHexString(v, fs.kind == 120);
        PrintPadded(hexBuffer, len, fs.width, fs.zeroPad);
      } else if fs.kind == 98 {
        len := MakeBinString(v);
        PrintPadded(binBuffer, len, fs.width, fs.zeroPad);
      } else {
        len := MakeDecString(v);
        PrintPadded(decBuffer, len, fs.width, fs.zeroPad);
      }
      sent := FS.IntegersAreShown(v, fs);
    }

    /** The prefix of the alternate form, if the type has one. */
    method PutPrefix(fs: FS.Spec)
      modifies this
      ensures out == old(out) + if fs.alternate then FS.BasePrefix(fs.kind) else []
    {
      if fs.alternate {
        if fs.kind == 120 || fs.kind == 88 || fs.kind == 98 {
          Put(48);
          Put(fs.kind);
        }
      }
    }

    method PutView(m: array<byte>, view: View)
      requires view.Within(m[..])
      modifies this
      ensures out == old(out) + view.Content(m[..])
    {
      var i := 0;
      while i < view.size
        invariant 0 <= i <= view.size && out == old(out) + m[view.data..view.data + i]
      {
        Put(m[view.data + i]);
        i := i + 1;
      }
    }

    /** Sends literal characters. */
    method PutAll(t: seq<byte>)
      modifies this
      ensures out == old(out) + t
    {
      for i := 0 to |t|
        invariant out == old(out) + t[..i]
      {
        Put(t[i]);
      }
    }

    method PutWide(units: seq<nat>)
      modifies this
      ensures out == old(out) + FS.WideBytes(units)
    {
      for i := 0 to |units|
        invariant out == old(out) + FS.WideBytes(units)[..i]
      {
        Put(units[i] % 256);
      }
    }

    /** The overloads of print. */
    method Print(m: array<byte>, v: FS.Printable)
      requires v.Valid(m[..])
      modifies this
      ensures out == old(out) + FS.Printed(m[..], v)
      decreases v
    {
      hide FS.Crlf, FS.WideBytes, FS.TruthText, FS.Joined, FS.Parts, Text, StrEnd, Chars, Digits;
      match v
      case Char(c) => Put(c);
      case Truth(b) => PutAll(FS.TruthText(b));
      case Number(n) => PutDec(n);
      case CText(addr) => Puts(m, addr);
      case WideText(units) => PutWide(units);
      case ViewOf(view) => PutView(m, view);
      case List(items) => PrintList(m, items);
      case Pair(first, second) =>
        ghost var before := out;
        Put(40);
        Print(m, first);
        PutAll(FS.SEPARATOR);
        Print(m, second);
        Put(41);
        Parenthesised(before, FS.Printed(m[..], first), FS.Printed(m[..], second));
      case Atomic(loaded) => Print(m, loaded);
    }

    /** print for an array or a slice. */
    method PrintList(m: array<byte>, items: seq<FS.Printable>)
      requires forall i | 0 <= i < |items| :: items[i].Valid(m[..])
      modifies this
      ensures out == old(out) + ([91] + FS.Joined(FS.Parts(m[..], items)) + [93])
      decreases items
    {
      hide FS.Joined, FS.Parts, FS.Printed;
      Put(91);
      ghost var mem, start := m[..], out;
      assert items[0..] == items;
      var i := 0;
      while i < |items|
        invariant 0 <= i <= |items| && m[..] == mem
        invariant out + FS.Joined(FS.Parts(mem, items[i..])) == start + FS.Joined(FS.Parts(mem, items))
      {
        ItemStep(mem, items, i, out);
        Print(m, items[i]);
        if i + 1 < |items| {
          PutAll(FS.SEPARATOR);
        }
        i := i + 1;
      }
      NoItemsLeft(mem, items);
      Put(93);
      Bracketed(old(out), FS.Joined(FS.Parts(mem, items)));
    }

    method Route(m: array<byte>, arg: FS.Arg, fs: FS.Spec)
      requires Apart(m) && arg.Valid(m[..])
      modifies this, hexBuffer, binBuffer, decBuffer
      ensures out == old(out) + FS.Render(m[..], arg, fs)
    {
      match arg
      case Integral(value) =>
        ghost var _ := RouteInt(value, fs);
      case Pointer(addr64) =>
        var len := MakeHexString(addr64, false);
        PrintPadded(hexBuffer, len, fs.width, fs.zeroPad);
      case Other(v) => Print(m, v);
      case Unsupported => PutAll(FS.UNSUPPORTED);
    }

    /** printf; no width overflows its 32-bit field exactly when all those that are read fit. */
    method Printf(m: array<byte>, fmt: nat, args: seq<FS.Arg>) returns (ghost inRange: bool)
      requires Apart(m) && IsString(m[..], fmt)
      requires FS.AllValid(m[..], args)
      modifies this, hexBuffer, binBuffer, decBuffer
      ensures out == old(out) + FS.Format(m[..], Text(m[..], fmt), args)
      ensures inRange <==> FS.WidthsFit(Text(m[..], fmt), |args|)
      decreases |args|, 2
    {
      hide FS.Format, FS.WidthsFit, FS.Crlf, Text, StrEnd;
      inRange := true;
      if args == [] {
        FS.OnlyTail(m[..], Text(m[..], fmt));
        FS.NoWidths(Text(m[..], fmt));
        Puts(m, fmt);
      } else {
        inRange := PrintfWithArgs(m, fmt, args);
      }
    }

    /** The overload of printf that has arguments. */
    method PrintfWithArgs(m: array<byte>, fmt: nat, args: seq<FS.Arg>) returns (ghost inRange: bool)
      requires Apart(m) && IsString(m[..], fmt)
      requires args != [] && FS.AllValid(m[..], args)
      modifies this, hexBuffer, binBuffer, decBuffer
      ensures out == old(out) + FS.Format(m[..], Text(m[..], fmt), args)
      ensures inRange <==> FS.WidthsFit(Text(m[..], fmt), |args|)
      decreases |args|, 1
    {
      assert fmt < m.Length;
      hide FS.Format, FS.WidthsFit, FS.AllValid, Text, StrEnd, IsString;
      var p := PrintLiterals(m, m[..], fmt, args);
      if m[p] != 0 {
        inRange := PrintfPlaceholder(m, p, args);
      } else {
        FormatEnds(m[..], p, args);
        inRange := true;
      }
    }

    /** The loop of printf, as far as the next placeholder or the end. */
    method PrintLiterals(m: array<byte>, ghost mem: seq<byte>, fmt: nat, ghost args: seq<FS.Arg>) returns (p: nat)
      requires m[..] == mem && IsString(mem, fmt) && fmt < m.Length && args != [] && FS.AllValid(mem, args)
      modifies this
      ensures p < m.Length && IsString(mem, p)
      ensures m[p] != 0 ==> m[p] == FS.OPEN && IsString(mem, p + 1) && p + 1 < m.Length && m[p + 1] != FS.OPEN
      ensures Sent(out, mem, p, args) == Sent(old(out), mem, fmt, args)
      ensures FS.WidthsFit(Text(mem, p), |args|) == FS.WidthsFit(Text(mem, fmt), |args|)
    {
      hide *;
      p := fmt;
      while m[p] != 0
        invariant m[..] == mem && p < |mem| && IsString(mem, p)
        invariant Sent(out, mem, p, args) == Sent(old(out), mem, fmt, args)
        invariant FS.WidthsFit(Text(mem, p), |args|) == FS.WidthsFit(Text(mem, fmt), |args|)
        decreases m.Length - p
      {
        NextByte(mem, p);
        if m[p] == FS.OPEN && m[p + 1] != FS.OPEN {
          return;
        }
        p := PutLiteral(m, mem, p, args);
      }
    }

    /** One turn of the loop: a doubled brace, or an ordinary character. */
    method PutLiteral(m: array<byte>, ghost mem: seq<byte>, p: nat, ghost args: seq<FS.Arg>) returns (next: nat)
      requires m[..] == mem && IsString(mem, p)
      requires p + 1 < m.Length && m[p] != 0 && (m[p] == FS.OPEN ==> m[p + 1] == FS.OPEN)
      requires args != [] && FS.AllValid(mem, args)
      modifies this
      ensures p < next < |mem| && IsString(mem, next)
      ensures Sent(out, mem, next, args) == Sent(old(out), mem, p, args)
      ensures FS.WidthsFit(Text(mem, next), |args|) == FS.WidthsFit(Text(mem, p), |args|)
    {
      hide *;
      assert m[p] == mem[p] && m[p + 1] == mem[p + 1];
      if m[p] == FS.OPEN {
        BraceStep(mem, p, args, out);
        Put(FS.OPEN);
        next := p + 2;
      } else {
        PlainStep(mem, p, args, out);
        PutCrlf(m[p]);
        next := p + 1;
      }
    }

    /** The placeholder branch of printf: one argument, then the rest of the format with the rest of the arguments. */
    method PrintfPlaceholder(m: array<byte>, start: nat, args: seq<FS.Arg>) returns (ghost inRange: bool)
      requires Apart(m) && IsString(m[..], start) && IsString(m[..], start + 1)
      requires m[start] == FS.OPEN && m[start + 1] != FS.OPEN
      requires args != [] && FS.AllValid(m[..], args)
      modifies this, hexBuffer, binBuffer, decBuffer
      ensures out == old(out) + FS.Format(m[..], Text(m[..], start), args)
      ensures inRange <==> FS.WidthsFit(Text(m[..], start), |args|)
      decreases |args|, 0
    {
      hide FS.Format, FS.WidthsFit, FS.Render, FS.ParseSpec, FS.SpecLength, Text, StrEnd;
      var p := start + 1;
      var specStart := p;
      p := SpecEnd(m, specStart);
      var specLen := p - specStart;
      if m[p] == FS.CLOSE {
        p := p + 1;
      }
      ghost var mem, before := m[..], out;
      PlaceholderOutput(mem, start, specLen, p, args);
      ghost var rest := FS.Format(mem, Text(mem, p), args[1..]);
      var fs, widthInRange := ParseSpec(m, specStart, specLen);
      assert mem[specStart..specStart + specLen] == m[specStart..specStart + specLen];
      ghost var rendered := FS.Render(mem, args[0], fs);
      Regroup(before, rendered, rest);
      inRange := PrintArgAndRest(m, p, args, fs);
      inRange := widthInRange && inRange;
    }

    method PrintArgAndRest(m: array<byte>, p: nat, args: seq<FS.Arg>, fs: FS.Spec) returns (ghost inRange: bool)
      requires Apart(m) && IsString(m[..], p)
      requires args != [] && FS.AllValid(m[..], args)
      modifies this, hexBuffer, binBuffer, decBuffer
      ensures out == (old(out) + FS.Render(m[..], args[0], fs)) + FS.Format(m[..], Text(m[..], p), args[1..])
      ensures inRange <==> FS.WidthsFit(Text(m[..], p), |args| - 1)
      decreases |args| - 1, 3
    {
      Route(m, args[0], fs);
      inRange := Printf(m, p, args[1..]);
    }

    /** The inner loop of printf: the end of a placeholder's specification. */
    method SpecEnd(m: array<byte>, start: nat) returns (p: nat)
      requires IsString(m[..], start)
      ensures p == start + FS.SpecLength(Text(m[..], start)) && IsString(m[..], p)
      ensures m[p] == 0 || m[p] == FS.CLOSE
    {
      p := start;
      while m[p] != 0 && m[p] != FS.CLOSE
        invariant start <= p && IsString(m[..], p)
        invariant p + FS.SpecLength(Text(m[..], p)) == start + FS.SpecLength(Text(m[..], start))
        decreases m.Length - p
      {
        TextStep(m[..], p);
        assert Text(m[..], p)[1..] == Text(m[..], p + 1);
        p := p + 1;
      }
      FirstBytes(m[..], p);
    }
  }
}
