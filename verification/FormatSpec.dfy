/** Format strings: how a placeholder's specification is read, and what a whole format string produces. */
module FormatSpec {
  import opened MachineWords
  import opened CString
  import opened Numerals
  import opened IntegerText
  import opened StringView

  const NEWLINE: byte := 10
  const RETURN: byte := 13
  const SPACE: byte := 32
  const HASH: byte := 35
  const ZERO: byte := 48
  const COLON: byte := 58
  const OPEN: byte := 123
  const CLOSE: byte := 125

  datatype Spec = Spec(alternate: bool, zeroPad: bool, width: nat, kind: byte)

  /** The largest value of the source's 32-bit width. */
  const MAX_WIDTH: nat := 0x7FFF_FFFF

  const DEFAULT: Spec := Spec(false, false, 0, 0)

  // ----- specifications

  function DropFirst(s: seq<byte>, c: byte): seq<byte> {
    if s != [] && s[0] == c then s[1..] else s
  }

  function StartsWithByte(s: seq<byte>, c: byte): bool {
    s != [] && s[0] == c
  }

  /** parse_spec: an optional colon, hash and zero, then the width's digits, then the type. */
  function ParseSpec(s: seq<byte>): Spec {
    var a := DropFirst(s, COLON);
    var b := DropFirst(a, HASH);
    var c := DropFirst(b, ZERO);
    var digits := LeadingDigits(c);
    LeadingDigitsFit(c);
    Spec(StartsWithByte(a, HASH), StartsWithByte(b, ZERO), Value(0, digits, 10),
         if |digits| < |c| then c[|digits|] else 0)
  }

  /** The specification, from the flags and the rest c that starts with the width. */
  lemma SpecOfFields(s: seq<byte>, alternate: bool, zeroPad: bool, c: seq<byte>, kind: byte)
    requires alternate == StartsWithByte(DropFirst(s, COLON), HASH)
    requires zeroPad == StartsWithByte(DropFirst(DropFirst(s, COLON), HASH), ZERO)
    requires c == DropFirst(DropFirst(DropFirst(s, COLON), HASH), ZERO)
    requires |LeadingDigits(c)| <= |c| && kind == if |LeadingDigits(c)| < |c| then c[|LeadingDigits(c)|] else 0
    ensures ParseSpec(s) == Spec(alternate, zeroPad, Value(0, LeadingDigits(c), 10), kind)
  {
    hide DropFirst, StartsWithByte, LeadingDigits, Value;
  }

  lemma {:induction false} LeadingDigitsFit(s: seq<byte>)
    ensures |LeadingDigits(s)| <= |s|
  {
    if s != [] && IsDigit(s[0]) {
      LeadingDigitsFit(s[1..]);
    }
  }

  /** A specification written out; the default one is empty, so its placeholder is {}. */
  function SpecText(fs: Spec): seq<byte> {
    if fs == DEFAULT then []
    else [COLON] + Flag(fs.alternate, HASH) + Flag(fs.zeroPad, ZERO) + WidthText(fs.width) + Kind(fs.kind)
  }

  function Flag(on: bool, c: byte): seq<byte> {
    if on then [c] else []
  }

  function WidthText(width: nat): seq<byte> {
    if width == 0 then [] else Chars(Digits(width, 10), true)
  }

  function Kind(kind: byte): seq<byte> {
    if kind == 0 then [] else [kind]
  }

  /** The type character can be told apart from the fields before it. */
  predicate Unambiguous(fs: Spec) {
    !IsDigit(fs.kind) && (fs.kind == HASH ==> fs.alternate || fs.zeroPad || fs.width > 0)
  }

  /** The parsed type is never a digit: the width takes all the digits there are. */
  lemma {:induction false} KindIsNoDigit(s: seq<byte>)
    ensures !IsDigit(ParseSpec(s).kind)
  {
    var c := DropFirst(DropFirst(DropFirst(s, COLON), HASH), ZERO);
    LeadingDigitsStop(c);
  }

  lemma {:induction false} LeadingDigitsStop(s: seq<byte>)
    ensures |LeadingDigits(s)| <= |s|
    ensures |LeadingDigits(s)| < |s| ==> !IsDigit(s[|LeadingDigits(s)|])
  {
    if s != [] && IsDigit(s[0]) {
      LeadingDigitsStop(s[1..]);
    }
  }

  /** The width field and the type: how they start, and how they are read. */
  lemma WidthRead(width: nat, kind: byte)
    requires !IsDigit(kind)
    ensures var c := WidthText(width) + Kind(kind);
            && !StartsWithByte(c, ZERO)
            && (StartsWithByte(c, HASH) <==> width == 0 && kind == HASH)
            && |LeadingDigits(c)| == |WidthText(width)|
            && Value(0, LeadingDigits(c), 10) == width
  {
    DigitsDenote(width, 10);
    if width == 0 {
      assert WidthText(width) + Kind(kind) == Kind(kind);
    } else {
      DigitsAreRead(Digits(width, 10), Kind(kind));
    }
  }

  /** Flags in front of the rest are found and removed, provided the rest starts with neither. */
  lemma FlagsRead(alternate: bool, zeroPad: bool, c: seq<byte>)
    requires !StartsWithByte(c, ZERO) && (StartsWithByte(c, HASH) ==> alternate || zeroPad)
    ensures var a := Flag(alternate, HASH) + Flag(zeroPad, ZERO) + c;
            && StartsWithByte(a, HASH) == alternate
            && StartsWithByte(DropFirst(a, HASH), ZERO) == zeroPad
            && DropFirst(DropFirst(a, HASH), ZERO) == c
  {
    var a := Flag(alternate, HASH) + Flag(zeroPad, ZERO) + c;
    assert DropFirst(a, HASH) == Flag(zeroPad, ZERO) + c;
  }

  /** How a specification other than the default is read, field by field. */
  lemma SpecFields(fs: Spec)
    requires fs != DEFAULT
    ensures var a := Flag(fs.alternate, HASH) + Flag(fs.zeroPad, ZERO) + (WidthText(fs.width) + Kind(fs.kind));
            SpecText(fs) == [COLON] + a && DropFirst(SpecText(fs), COLON) == a
  {
    var a := Flag(fs.alternate, HASH) + Flag(fs.zeroPad, ZERO) + (WidthText(fs.width) + Kind(fs.kind));
    hide WidthText, Kind, Flag;
    assert SpecText(fs) == [COLON] + a;
  }

  lemma DefaultRoundTrip()
    ensures ParseSpec(SpecText(DEFAULT)) == DEFAULT
  {
  }

  /** What parsing leaves of a text whose fields are found as written. */
  lemma ParsedFields(s: seq<byte>, a: seq<byte>, b: seq<byte>, c: seq<byte>, width: nat, kind: byte)
    requires DropFirst(s, COLON) == a && DropFirst(a, HASH) == b && DropFirst(b, ZERO) == c
    requires c == WidthText(width) + Kind(kind) && !IsDigit(kind)
    ensures ParseSpec(s) == Spec(StartsWithByte(a, HASH), StartsWithByte(b, ZERO), width, kind)
  {
    hide DropFirst, StartsWithByte;
    WidthRead(width, kind);
    assert |WidthText(width)| < |c| ==> c[|WidthText(width)|] == kind by {
      hide WidthText;
    }
    assert |WidthText(width)| == |c| ==> kind == 0 by {
      hide WidthText;
    }
  }

  lemma UnambiguousRoundTrip(fs: Spec)
    requires fs != DEFAULT && Unambiguous(fs)
    ensures ParseSpec(SpecText(fs)) == fs
  {
    hide ParseSpec, SpecText, WidthText, Kind;
    var c := WidthText(fs.width) + Kind(fs.kind);
    var a := Flag(fs.alternate, HASH) + Flag(fs.zeroPad, ZERO) + c;
    SpecFields(fs);
    WidthRead(fs.width, fs.kind);
    FlagsRead(fs.alternate, fs.zeroPad, c);
    ParsedFields(SpecText(fs), a, DropFirst(a, HASH), c, fs.width, fs.kind);
  }

  /** A hash as the type, with nothing in between, is read as the alternate flag. */
  lemma HashIsRead(fs: Spec)
    requires fs.kind == HASH && !fs.alternate && !fs.zeroPad && fs.width == 0
    ensures ParseSpec(SpecText(fs)).alternate
  {
    SpecFields(fs);
    assert DropFirst(SpecText(fs), COLON) == [HASH];
  }

  /** Parsing inverts printing for every 32-bit width and both flags, exactly when the type character is unambiguous. */
  lemma SpecRoundTripIff(fs: Spec)
    requires fs.width <= MAX_WIDTH
    ensures ParseSpec(SpecText(fs)) == fs <==> Unambiguous(fs)
  {
    hide ParseSpec, SpecText;
    if fs == DEFAULT {
      DefaultRoundTrip();
    } else if IsDigit(fs.kind) {
      KindIsNoDigit(SpecText(fs));
    } else if Unambiguous(fs) {
      UnambiguousRoundTrip(fs);
    } else {
      HashIsRead(fs);
    }
  }

  /** An instance: ":5" with 5 meant as the type reads as a width of 5. */
  lemma DigitTypeIsWidth()
    ensures SpecText(Spec(false, false, 0, 53)) == [COLON, 53]
    ensures ParseSpec([COLON, 53]) == Spec(false, false, 5, 0)
  {
    assert [COLON, 53][1..] == [53] && [53][1..] == [];
    assert LeadingDigits([53]) == [5] + LeadingDigits([]) == [5];
    assert Value(0, [5], 10) == Value(5, [], 10);
  }

  // ----- rendering

  /** puts: every newline is preceded by a carriage return. */
  function Crlf(t: seq<byte>): seq<byte> {
    if t == [] then [] else CrlfByte(t[0]) + Crlf(t[1..])
  }

  function CrlfByte(c: byte): seq<byte> {
    if c == NEWLINE then [RETURN, NEWLINE] else [c]
  }

  /** puts works byte by byte, in order. */
  lemma {:induction false} CrlfSplits(a: seq<byte>, b: seq<byte>)
    ensures Crlf(a + b) == Crlf(a) + Crlf(b)
    decreases |a|
  {
    hide CrlfByte;
    if a == [] {
      assert a + b == b;
    } else {
      assert (a + b)[1..] == a[1..] + b && (a + b)[0] == a[0];
      CrlfSplits(a[1..], b);
      assert CrlfByte(a[0]) + (Crlf(a[1..]) + Crlf(b)) == (CrlfByte(a[0]) + Crlf(a[1..])) + Crlf(b);
    }
  }

  /** A line feed (10) becomes a carriage return (13) and a line feed; every other byte stays. */
  lemma CrlfOfByte(c: byte)
    ensures Crlf([c]) == if c == 10 then [13, 10] else [c]
  {
    assert Crlf([c]) == CrlfByte(c) + Crlf([]);
  }

  lemma {:induction false} CrlfOfPlain(t: seq<byte>)
    requires forall i | 0 <= i < |t| :: t[i] != 10
    ensures Crlf(t) == t
    decreases |t|
  {
    if t != [] {
      CrlfOfPlain(t[1..]);
      assert [t[0]] + t[1..] == t;
    }
  }

  /** A numeral right-aligned in a field; one that is too long is not cut. */
  function Padded(t: seq<byte>, width: nat, zeroPad: bool): seq<byte> {
    seq(if width > |t| then width - |t| else 0, _ => if zeroPad then ZERO else SPACE) + t
  }

  function BaseOf(kind: byte): nat {
    if kind == 120 || kind == 88 then 16 else if kind == 98 then 2 else 10
  }

  /** The alternate form's prefix: 0x, 0X or 0b; none for decimal. */
  function BasePrefix(kind: byte): seq<byte> {
    if BaseOf(kind) == 10 then [] else [ZERO, kind]
  }

  /** An integer argument under a specification: prefix first, then padding, then the digits. */
  function RenderInt(v: u64, fs: Spec): seq<byte> {
    (if fs.alternate then BasePrefix(fs.kind) else [])
    + Padded(Chars(Digits(v, BaseOf(fs.kind)), fs.kind == 120), fs.width, fs.zeroPad)
  }

  /**
   * What print takes: texts and views live in memory, a number is its 64-bit image, a wide text is its
   * units before the null. An array and a slice print alike.
   */
  datatype Printable =
    | Char(c: byte)
    | Truth(b: bool)
    | Number(n: u64)
    | CText(addr: nat)
    | WideText(units: seq<nat>)
    | ViewOf(view: View)
    | List(items: seq<Printable>)
    | Pair(first: Printable, second: Printable)
    | Atomic(loaded: Printable)
  {
    predicate Valid(m: seq<byte>) {
      match this
      case CText(addr) => IsString(m, addr)
      case ViewOf(view) => view.Within(m)
      case List(items) => forall i | 0 <= i < |items| :: items[i].Valid(m)
      case Pair(first, second) => first.Valid(m) && second.Valid(m)
      case Atomic(loaded) => loaded.Valid(m)
      case _ => true
    }
  }

  const SEPARATOR: seq<byte> := [44, SPACE]

  function Joined(parts: seq<seq<byte>>): seq<byte> {
    if parts == [] then [] else parts[0] + (if |parts| == 1 then [] else SEPARATOR) + Joined(parts[1..])
  }

  /** Between any two parts there is a comma and a space, and nowhere else. */
  lemma {:induction false} JoinedSplits(a: seq<seq<byte>>, b: seq<seq<byte>>)
    requires a != [] && b != []
    ensures Joined(a + b) == Joined(a) + Ascii(", ") + Joined(b)
    ensures |a| == 1 ==> Joined(a) == a[0]
    decreases |a|
  {
    assert (a + b)[1..] == a[1..] + b;
    if |a| == 1 {
      assert a[1..] == [] && Joined([]) == [];
    } else {
      JoinedSplits(a[1..], b);
    }
  }

  function TruthText(b: bool): seq<byte> {
    if b then [116, 114, 117, 101] else [102, 97, 108, 115, 101]
  }

  /** A wide character is sent as its low byte. */
  function WideBytes(units: seq<nat>): (r: seq<byte>)
    ensures |r| == |units|
  {
    seq(|units|, i requires 0 <= i < |units| => units[i] % 256)
  }

  /** The items of a list, each printed. */
  function Parts(m: seq<byte>, items: seq<Printable>): (r: seq<seq<byte>>)
    requires forall i | 0 <= i < |items| :: items[i].Valid(m)
    ensures |r| == |items|
    decreases items
  {
    if items == [] then [] else [Printed(m, items[0])] + Parts(m, items[1..])
  }

  /** print, for a value of any kind. */
  function Printed(m: seq<byte>, v: Printable): seq<byte>
    requires v.Valid(m)
    decreases v
  {
    match v
    case Char(c) => [c]
    case Truth(b) => TruthText(b)
    case Number(n) => Chars(Digits(n, 10), false)
    case CText(addr) => Crlf(Text(m, addr))
    case WideText(units) => WideBytes(units)
    case ViewOf(view) => view.Content(m)
    case List(items) => [91] + Joined(Parts(m, items)) + [93]
    case Pair(first, second) => [40] + Printed(m, first) + SEPARATOR + Printed(m, second) + [41]
    case Atomic(loaded) => Printed(m, loaded)
  }

  /**
   * The argument kinds that the formatter tells apart: only integers and pointers use their specification.
   * Characters, truth values and numbers are integers.
   */
  datatype Arg = Integral(value: u64) | Pointer(addr64: u64) | Other(v: Printable) | Unsupported {
    predicate Valid(m: seq<byte>) {
      Other? ==> v.Valid(m) && !v.Char? && !v.Truth? && !v.Number?
    }
  }

  predicate AllValid(m: seq<byte>, args: seq<Arg>) {
    forall i | 0 <= i < |args| :: args[i].Valid(m)
  }

  /** [unsupported] */
  const UNSUPPORTED: seq<byte> := [91, 117, 110, 115, 117, 112, 112, 111, 114, 116, 101, 100, 93]

  function Render(m: seq<byte>, arg: Arg, fs: Spec): seq<byte>
    requires arg.Valid(m)
  {
    match arg
    case Integral(value) => RenderInt(value, fs)
    case Pointer(addr64) => Padded(Chars(Digits(addr64, 16), false), fs.width, fs.zeroPad)
    case Other(v) => Printed(m, v)
    case Unsupported => UNSUPPORTED
  }

  // ----- rendered integers, in terms of bytes alone

  /** An integer as it is sent: the prefix, the padding, and the text of its digits. */
  datatype Shown = Shown(prefix: seq<byte>, padding: seq<byte>, digits: seq<nat>, text: seq<byte>)

  /** The text spells v in the base without leading zero; ten is the character of the digit ten. */
  ghost predicate SpellsNumber(text: seq<byte>, digits: seq<nat>, v: nat, base: nat, ten: byte) {
    && |text| == |digits|
    && (forall i | 0 <= i < |digits| ::
          digits[i] < base && text[i] == if digits[i] < 10 then 48 + digits[i] else ten + digits[i] - 10)
    && Value(0, digits, base) == v
    && (digits == [0] || (digits != [] && digits[0] != 0))
  }

  /** The text right-aligned in the width: zeros or spaces, and no more of them than it takes. */
  ghost predicate Fills(padding: seq<byte>, text: seq<byte>, width: nat, zeroPad: bool) {
    && (forall i | 0 <= i < |padding| :: padding[i] == if zeroPad then 48 else 32)
    && |padding| + |text| == if width > |text| then width else |text|
  }

  /**
   * An integer argument as promised: x and X are hexadecimal with small and capital letters, b is binary, any
   * other type is decimal; the alternate form has the prefix 0x, 0X or 0b, decimal has none.
   */
  ghost predicate ShowsInteger(r: Shown, v: u64, fs: Spec) {
    && Fills(r.padding, r.text, fs.width, fs.zeroPad)
    && r.prefix == (if !fs.alternate then []
                    else if fs.kind == 120 then [48, 120]
                    else if fs.kind == 88 then [48, 88]
                    else if fs.kind == 98 then [48, 98]
                    else [])
    && if fs.kind == 120 then SpellsNumber(r.text, r.digits, v, 16, 97)
       else if fs.kind == 88 then SpellsNumber(r.text, r.digits, v, 16, 65)
       else if fs.kind == 98 then SpellsNumber(r.text, r.digits, v, 2, 65)
       else SpellsNumber(r.text, r.digits, v, 10, 65)
  }

  /** A pointer argument: capital hexadecimal digits without prefix, whatever its type character. */
  ghost predicate ShowsPointer(r: Shown, v: u64, fs: Spec) {
    r.prefix == [] && Fills(r.padding, r.text, fs.width, fs.zeroPad) && SpellsNumber(r.text, r.digits, v, 16, 65)
  }

  lemma NumeralSpells(v: nat, base: nat, lower: bool)
    requires 2 <= base <= 16
    ensures SpellsNumber(Chars(Digits(v, base), lower), Digits(v, base), v, base, if lower then 97 else 65)
  {
    DigitsDenote(v, base);
    hide Digits, Value;
    assert AreDigits(Digits(v, base), base);
  }

  /** The two parts of a padded text. */
  lemma PaddedFills(text: seq<byte>, width: nat, zeroPad: bool) returns (padding: seq<byte>)
    ensures Padded(text, width, zeroPad) == padding + text && Fills(padding, text, width, zeroPad)
  {
    padding := seq(if width > |text| then width - |text| else 0, _ => if zeroPad then ZERO else SPACE);
  }

  /** Rendering an integer shows it as promised. */
  lemma IntegersAreShown(v: u64, fs: Spec) returns (r: Shown)
    ensures RenderInt(v, fs) == r.prefix + (r.padding + r.text) && ShowsInteger(r, v, fs)
  {
    var digits := Digits(v, BaseOf(fs.kind));
    NumeralSpells(v, BaseOf(fs.kind), fs.kind == 120);
    var text := Chars(digits, fs.kind == 120);
    var padding := PaddedFills(text, fs.width, fs.zeroPad);
    r := Shown(if fs.alternate then BasePrefix(fs.kind) else [], padding, digits, text);
    hide SpellsNumber, Fills, Digits, Chars, Padded;
  }

  lemma PointersAreShown(m: seq<byte>, a: u64, fs: Spec) returns (r: Shown)
    ensures Render(m, Pointer(a), fs) == r.prefix + (r.padding + r.text) && ShowsPointer(r, a, fs)
  {
    NumeralSpells(a, 16, false);
    var text := Chars(Digits(a, 16), false);
    var padding := PaddedFills(text, fs.width, fs.zeroPad);
    r := Shown([], padding, Digits(a, 16), text);
    hide SpellsNumber, Fills, Digits, Chars, Padded;
    assert [] + (padding + text) == padding + text;
  }

  lemma SpelledDigits(r: Shown, v: nat, base: nat, ten: byte)
    requires 2 <= base <= 16 && SpellsNumber(r.text, r.digits, v, base, ten)
    ensures r.digits == Digits(v, base)
  {
    hide Digits, Value;
    DigitsAreUnique(r.digits, base);
  }

  lemma SpellingIsUnique(r: Shown, r': Shown, v: nat, base: nat, ten: byte)
    requires 2 <= base <= 16
    requires SpellsNumber(r.text, r.digits, v, base, ten) && SpellsNumber(r'.text, r'.digits, v, base, ten)
    ensures r.text == r'.text && r.digits == r'.digits
  {
    hide Digits, Value;
    SpelledDigits(r, v, base, ten);
    SpelledDigits(r', v, base, ten);
  }

  lemma FillingIsUnique(padding: seq<byte>, padding': seq<byte>, text: seq<byte>, width: nat, zeroPad: bool)
    requires Fills(padding, text, width, zeroPad) && Fills(padding', text, width, zeroPad)
    ensures padding == padding'
  {
  }

  /** What is promised of an integer leaves no choice: it fixes every byte that is sent. */
  lemma ShownIsUnique(r: Shown, r': Shown, v: u64, fs: Spec)
    requires ShowsInteger(r, v, fs) && ShowsInteger(r', v, fs)
    ensures r == r'
  {
    hide SpellsNumber, Fills;
    var base := if fs.kind == 120 || fs.kind == 88 then 16 else if fs.kind == 98 then 2 else 10;
    SpellingIsUnique(r, r', v, base, if fs.kind == 120 then 97 else 65);
    FillingIsUnique(r.padding, r'.padding, r.text, fs.width, fs.zeroPad);
  }

  /** An integer that is shown by these parts is rendered as them. */
  lemma RenderedAs(v: u64, fs: Spec, r: Shown)
    requires ShowsInteger(r, v, fs)
    ensures RenderInt(v, fs) == r.prefix + (r.padding + r.text)
  {
    var r' := IntegersAreShown(v, fs);
    ShownIsUnique(r, r', v, fs);
  }

  // ----- format strings

  /** The length of the specification that starts s: up to a closing brace or the end. */
  function SpecLength(s: seq<byte>): (n: nat)
    ensures n <= |s|
  {
    if s == [] || s[0] == CLOSE then 0 else 1 + SpecLength(s[1..])
  }

  /**
   * The output of printf. Without arguments left, the rest is copied as it is: braces included.
   * Arguments that the format does not ask for are ignored.
   */
  function Format(m: seq<byte>, fmt: seq<byte>, args: seq<Arg>): seq<byte>
    requires AllValid(m, args)
    decreases |fmt|
  {
    if args == [] then Crlf(fmt)
    else if fmt == [] then []
    else if fmt[0] == OPEN && |fmt| > 1 && fmt[1] == OPEN then [OPEN] + Format(m, fmt[2..], args)
    else if fmt[0] == OPEN then
      var n := SpecLength(fmt[1..]);
      Render(m, args[0], ParseSpec(fmt[1..n + 1])) + Format(m, DropFirst(fmt[n + 1..], CLOSE), args[1..])
    else CrlfByte(fmt[0]) + Format(m, fmt[1..], args)
  }

  /** Every width that printf reads for one of n arguments fits the source's 32-bit field. */
  predicate WidthsFit(fmt: seq<byte>, n: nat)
    decreases |fmt|
  {
    if n == 0 || fmt == [] then true
    else if fmt[0] == OPEN && |fmt| > 1 && fmt[1] == OPEN then WidthsFit(fmt[2..], n)
    else if fmt[0] == OPEN then
      var k := SpecLength(fmt[1..]);
      ParseSpec(fmt[1..k + 1]).width <= MAX_WIDTH && WidthsFit(DropFirst(fmt[k + 1..], CLOSE), n - 1)
    else WidthsFit(fmt[1..], n)
  }

  lemma WidthsStep(fmt: seq<byte>, n: nat)
    requires n > 0 && fmt != [] && fmt[0] == OPEN && !(|fmt| > 1 && fmt[1] == OPEN)
    ensures var k := SpecLength(fmt[1..]);
            WidthsFit(fmt, n) <==>
              ParseSpec(fmt[1..k + 1]).width <= MAX_WIDTH && WidthsFit(DropFirst(fmt[k + 1..], CLOSE), n - 1)
  {
    hide ParseSpec, SpecLength, DropFirst;
  }

  // ----- format strings built from pieces

  /** Something to be printed as it is: an ordinary byte, or an opening brace written doubled. */
  datatype Literal = Plain(c: byte) | Brace {
    predicate Valid() {
      Plain? ==> c != OPEN && c != 0
    }

    function Source(): seq<byte> {
      if Plain? then [c] else [OPEN, OPEN]
    }

    function Output(): seq<byte> {
      if Plain? then CrlfByte(c) else [OPEN]
    }
  }

  /** Literals followed by one placeholder. */
  datatype Segment = Segment(literals: seq<Literal>, spec: Spec) {
    predicate Valid() {
      && (forall i | 0 <= i < |literals| :: literals[i].Valid())
      && Unambiguous(spec) && spec.kind != CLOSE && spec.width <= MAX_WIDTH
    }
  }

  /** The literals as written in a format string, followed by the rest of it. */
  function LiteralSource(ls: seq<Literal>, rest: seq<byte>): seq<byte> {
    if ls == [] then rest else ls[0].Source() + LiteralSource(ls[1..], rest)
  }

  /** The literals as printed, followed by the rest of the output. */
  function LiteralOutput(ls: seq<Literal>, rest: seq<byte>): seq<byte> {
    if ls == [] then rest else ls[0].Output() + LiteralOutput(ls[1..], rest)
  }

  /** The format string of the segments followed by a tail. */
  function Flatten(segments: seq<Segment>, tail: seq<byte>): seq<byte> {
    if segments == [] then tail
    else
      var rest := Flatten(segments[1..], tail);
      LiteralSource(segments[0].literals, [OPEN] + SpecText(segments[0].spec) + [CLOSE] + rest)
  }

  /** Each segment's literals, then its argument under its specification; at last the tail. */
  function Interleave(m: seq<byte>, segments: seq<Segment>, args: seq<Arg>, tail: seq<byte>): seq<byte>
    requires |args| == |segments| && AllValid(m, args)
  {
    if segments == [] then Crlf(tail)
    else
      var rest := Interleave(m, segments[1..], args[1..], tail);
      LiteralOutput(segments[0].literals, Render(m, args[0], segments[0].spec) + rest)
  }

  lemma {:induction false} LiteralsPrinted(m: seq<byte>, ls: seq<Literal>, rest: seq<byte>, args: seq<Arg>)
    requires args != [] && AllValid(m, args)
    requires forall i | 0 <= i < |ls| :: ls[i].Valid()
    ensures Format(m, LiteralSource(ls, rest), args) == LiteralOutput(ls, Format(m, rest, args))
    decreases |ls|
  {
    if ls != [] {
      LiteralsPrinted(m, ls[1..], rest, args);
      LiteralStep(m, ls[0], LiteralSource(ls[1..], rest), args);
    }
  }

  lemma LiteralStep(m: seq<byte>, l: Literal, rest: seq<byte>, args: seq<Arg>)
    requires args != [] && l.Valid() && AllValid(m, args)
    ensures Format(m, l.Source() + rest, args) == l.Output() + Format(m, rest, args)
  {
    assert (l.Source() + rest)[|l.Source()|..] == rest;
  }

  lemma LiteralHasNoWidth(l: Literal, rest: seq<byte>, n: nat)
    requires n > 0 && l.Valid()
    ensures WidthsFit(l.Source() + rest, n) == WidthsFit(rest, n)
  {
    assert (l.Source() + rest)[|l.Source()|..] == rest;
  }

  lemma {:induction false} LiteralsHaveNoWidth(ls: seq<Literal>, rest: seq<byte>, n: nat)
    requires n > 0 && forall i | 0 <= i < |ls| :: ls[i].Valid()
    ensures WidthsFit(LiteralSource(ls, rest), n) == WidthsFit(rest, n)
    decreases |ls|
  {
    if ls != [] {
      LiteralsHaveNoWidth(ls[1..], rest, n);
      LiteralHasNoWidth(ls[0], LiteralSource(ls[1..], rest), n);
    }
  }

  /** The widths written in a format string of segments are read without overflow. */
  lemma {:induction false} FlattenFits(segments: seq<Segment>, tail: seq<byte>)
    requires forall i | 0 <= i < |segments| :: segments[i].Valid()
    ensures WidthsFit(Flatten(segments, tail), |segments|)
    decreases |segments|
  {
    hide WidthsFit, LiteralSource, SpecText;
    if segments == [] {
      NoWidths(Flatten(segments, tail));
    } else {
      var rest := Flatten(segments[1..], tail);
      FlattenFits(segments[1..], tail);
      PlaceholderFits(segments[0].spec, rest, |segments|);
      LiteralsHaveNoWidth(segments[0].literals, [OPEN] + SpecText(segments[0].spec) + [CLOSE] + rest, |segments|);
    }
  }

  lemma NoWidths(fmt: seq<byte>)
    ensures WidthsFit(fmt, 0)
  {
  }

  lemma {:induction false} SpecEndsAtClose(s: seq<byte>, rest: seq<byte>)
    requires forall i | 0 <= i < |s| :: s[i] != CLOSE
    ensures SpecLength(s + [CLOSE] + rest) == |s|
  {
    var t := s + [CLOSE] + rest;
    if s != [] {
      assert t[1..] == s[1..] + [CLOSE] + rest;
      SpecEndsAtClose(s[1..], rest);
    }
  }

  lemma SpecTextHasNoBraces(fs: Spec)
    requires fs.kind != CLOSE
    ensures forall i | 0 <= i < |SpecText(fs)| :: SpecText(fs)[i] != CLOSE
    ensures SpecText(fs) != [] ==> SpecText(fs)[0] == COLON
  {
    if fs != DEFAULT {
      var w := WidthText(fs.width);
      DigitsDenote(fs.width, 10);
      assert forall i | 0 <= i < |w| :: w[i] != CLOSE;
      var front := [COLON] + Flag(fs.alternate, HASH) + Flag(fs.zeroPad, ZERO);
      assert SpecText(fs) == front + w + Kind(fs.kind);
    }
  }

  lemma PlaceholderPrinted(m: seq<byte>, fs: Spec, rest: seq<byte>, args: seq<Arg>)
    requires args != [] && AllValid(m, args)
    requires Unambiguous(fs) && fs.kind != CLOSE && fs.width <= MAX_WIDTH
    ensures Format(m, [OPEN] + SpecText(fs) + [CLOSE] + rest, args) == Render(m, args[0], fs) + Format(m, rest, args[1..])
  {
    hide SpecText, Format, Render, ParseSpec, DropFirst, SpecLength, Unambiguous;
    var s := SpecText(fs);
    SpecTextHasNoBraces(fs);
    SpecRoundTripIff(fs);
    PlaceholderAt(s, rest);
    var fmt := [OPEN] + s + [CLOSE] + rest;
    SecondIsNotOpen(s, rest);
    PlaceholderStep(m, fmt, args);
  }

  lemma PlaceholderFits(fs: Spec, rest: seq<byte>, n: nat)
    requires n > 0 && Unambiguous(fs) && fs.kind != CLOSE && fs.width <= MAX_WIDTH
    ensures WidthsFit([OPEN] + SpecText(fs) + [CLOSE] + rest, n) == WidthsFit(rest, n - 1)
  {
    hide SpecText, WidthsFit, ParseSpec, DropFirst, SpecLength, Unambiguous;
    var s := SpecText(fs);
    SpecTextHasNoBraces(fs);
    SpecRoundTripIff(fs);
    PlaceholderAt(s, rest);
    var fmt := [OPEN] + s + [CLOSE] + rest;
    SecondIsNotOpen(s, rest);
    WidthsStep(fmt, n);
  }

  lemma SecondIsNotOpen(s: seq<byte>, rest: seq<byte>)
    requires s != [] ==> s[0] == COLON
    ensures var fmt := [OPEN] + s + [CLOSE] + rest; fmt[0] == OPEN && |fmt| > 1 && fmt[1] != OPEN
  {
  }

  /** One placeholder taken off a format string. */
  lemma PlaceholderStep(m: seq<byte>, fmt: seq<byte>, args: seq<Arg>)
    requires args != [] && AllValid(m, args)
    requires fmt != [] && fmt[0] == OPEN && !(|fmt| > 1 && fmt[1] == OPEN)
    ensures var n := SpecLength(fmt[1..]);
            var after := DropFirst(fmt[n + 1..], CLOSE);
            Format(m, fmt, args) == Render(m, args[0], ParseSpec(fmt[1..n + 1])) + Format(m, after, args[1..])
  {
    hide ParseSpec, Render, SpecLength, Crlf, CrlfByte, DropFirst;
  }

  lemma PlaceholderAt(s: seq<byte>, rest: seq<byte>)
    requires forall i | 0 <= i < |s| :: s[i] != CLOSE
    ensures var fmt := [OPEN] + s + [CLOSE] + rest;
            SpecLength(fmt[1..]) == |s| && fmt[1..|s| + 1] == s && DropFirst(fmt[|s| + 1..], CLOSE) == rest
  {
    var fmt := [OPEN] + s + [CLOSE] + rest;
    SpecEndsAtClose(s, rest);
    assert fmt[1..] == s + [CLOSE] + rest;
    assert fmt[|s| + 1..] == [CLOSE] + rest;
  }

  /**
   * printf inverts the construction of a format string: literals come out as they are (a newline as
   * carriage return and newline, a doubled brace as one), each placeholder as its argument, in order; no
   * width overflows.
   */
  lemma {:induction false} PrintfInvertsFlatten(m: seq<byte>, segments: seq<Segment>, args: seq<Arg>, tail: seq<byte>)
    requires |args| == |segments| && AllValid(m, args)
    requires forall i | 0 <= i < |segments| :: segments[i].Valid()
    ensures Format(m, Flatten(segments, tail), args) == Interleave(m, segments, args, tail)
    ensures WidthsFit(Flatten(segments, tail), |args|)
    decreases |segments|
  {
    FlattenFits(segments, tail);
    hide WidthsFit, Format, Render, SpecText, LiteralSource, LiteralOutput;
    if segments == [] {
      OnlyTail(m, tail);
    } else {
      var rest := Flatten(segments[1..], tail);
      LiteralsPrinted(m, segments[0].literals, [OPEN] + SpecText(segments[0].spec) + [CLOSE] + rest, args);
      PlaceholderPrinted(m, segments[0].spec, rest, args);
      PrintfInvertsFlatten(m, segments[1..], args[1..], tail);
    }
  }

  lemma OnlyTail(m: seq<byte>, tail: seq<byte>)
    ensures Format(m, tail, []) == Crlf(tail)
  {
  }

  // ----- one format string, byte for byte

  lemma ParsedExample()
    ensures ParseSpec(Ascii(":#06x")) == Spec(true, true, 6, 120)
  {
    var s := Ascii(":#06x");
    var c := s[3..];
    assert c[0] == 54 && c[1] == 120 && c[1..] == [120];
    assert LeadingDigits(c) == [6] + LeadingDigits(c[1..]) == [6];
    assert Value(0, [6], 10) == Value(6, [], 10);
    assert s[1..][1..][1..] == c;
  }

  lemma BeefIsSpelled()
    ensures Value(0, [11, 14, 14, 15], 16) == 48879
  {
    var digits := [11, 14, 14, 15];
    assert digits[1..] == [14, 14, 15] && [14, 14, 15][1..] == [14, 15] && [14, 15][1..] == [15] && [15][1..] == [];
    assert Value(0, digits, 16) == Value(11, [14, 14, 15], 16) == Value(190, [14, 15], 16);
    assert Value(190, [14, 15], 16) == Value(3054, [15], 16) == Value(48879, [], 16);
  }

  lemma HexExample()
    ensures RenderInt(48879, Spec(true, true, 6, 120)) == Ascii("0x00beef")
  {
    BeefIsSpelled();
    hide Value, RenderInt;
    var r := Shown([48, 120], [48, 48], [11, 14, 14, 15], Ascii("beef"));
    RenderedAs(48879, Spec(true, true, 6, 120), r);
    assert [48, 120] + ([48, 48] + Ascii("beef")) == Ascii("0x00beef");
  }

  lemma ExampleSplit()
    ensures Ascii("{{{:#06x}\n") == [123, 123] + ([123] + Ascii(":#06x") + [125] + [10])
    ensures forall i | 0 <= i < |Ascii(":#06x")| :: Ascii(":#06x")[i] != CLOSE
  {
  }

  lemma ExampleLine(m: seq<byte>)
    ensures Format(m, [10], []) == [13, 10]
  {
    assert Crlf([10]) == CrlfByte(10) + Crlf([]);
  }

  lemma PlaceholderExample(m: seq<byte>)
    ensures Format(m, [123] + Ascii(":#06x") + [125] + [10], [Integral(48879)]) == Ascii("0x00beef") + [13, 10]
  {
    ParsedExample();
    HexExample();
    ExampleLine(m);
    ExampleSplit();
    assert Ascii(":#06x")[0] == 58;
    hide Format, ParseSpec, SpecLength, RenderInt, DropFirst, Ascii, Crlf, LeadingDigits, Value;
    var args := [Integral(48879)];
    PlaceholderAt(Ascii(":#06x"), [10]);
    SecondIsNotOpen(Ascii(":#06x"), [10]);
    assert args[1..] == [];
    PlaceholderStep(m, [123] + Ascii(":#06x") + [125] + [10], args);
  }

  lemma ExampleJoined()
    ensures [123] + (Ascii("0x00beef") + [13, 10]) == Ascii("{0x00beef\r\n")
  {
  }

  /** An instance: a doubled brace, all the fields of a specification, and a line's end. */
  lemma FormatExample(m: seq<byte>)
    ensures Format(m, Ascii("{{{:#06x}\n"), [Integral(48879)]) == Ascii("{0x00beef\r\n")
  {
    ExampleSplit();
    ExampleJoined();
    PlaceholderExample(m);
    LiteralStep(m, Brace, [123] + Ascii(":#06x") + [125] + [10], [Integral(48879)]);
    hide Format, Ascii;
  }

  // ----- format strings that are not well formed

  /** A placeholder that is never closed takes the rest of the format as its specification. */
  lemma UnclosedPlaceholder(m: seq<byte>, s: seq<byte>, args: seq<Arg>)
    requires args != [] && AllValid(m, args)
    requires (s != [] ==> s[0] != 123) && forall i | 0 <= i < |s| :: s[i] != 125
    ensures Format(m, [123] + s, args) == Render(m, args[0], ParseSpec(s))
  {
    var fmt := [123] + s;
    NoClose(s);
    assert fmt[1..] == s && fmt[1..|s| + 1] == s && fmt[|s| + 1..] == [];
    NothingLeft(m, args[1..]);
    hide Format, ParseSpec, Render, SpecLength;
    PlaceholderStep(m, fmt, args);
  }

  lemma {:induction false} NoClose(s: seq<byte>)
    requires forall i | 0 <= i < |s| :: s[i] != 125
    ensures SpecLength(s) == |s|
  {
    if s != [] {
      NoClose(s[1..]);
    }
  }

  lemma NothingLeft(m: seq<byte>, args: seq<Arg>)
    requires AllValid(m, args)
    ensures Format(m, [], args) == []
  {
  }

  /** Without an opening brace the format is copied, whatever the arguments. */
  lemma {:induction false} UnusedArguments(m: seq<byte>, t: seq<byte>, args: seq<Arg>)
    requires AllValid(m, args) && forall i | 0 <= i < |t| :: t[i] != 123
    ensures Format(m, t, args) == Crlf(t)
    decreases |t|
  {
    if t != [] {
      UnusedArguments(m, t[1..], args);
    }
  }

  // ----- values of other kinds, byte for byte

  /** A C string goes out up to its NUL, a view whole, an atomic as what it holds. */
  lemma TextsArePrinted(m: seq<byte>, addr: nat, e: nat, view: View, v: Printable)
    requires addr <= e < |m| && m[e] == 0 && forall i | addr <= i < e :: m[i] != 0
    requires view.Within(m) && v.Valid(m)
    ensures CText(addr).Valid(m) && Printed(m, CText(addr)) == Crlf(m[addr..e])
    ensures (forall i | addr <= i < e :: m[i] != 10) ==> Printed(m, CText(addr)) == m[addr..e]
    ensures Printed(m, ViewOf(view)) == m[view.data..view.data + view.size]
    ensures Printed(m, Atomic(v)) == Printed(m, v)
  {
    EndIsFirstNul(m, addr, e);
    if forall i | addr <= i < e :: m[i] != 10 {
      CrlfOfPlain(m[addr..e]);
    }
  }

  lemma PairOf(m: seq<byte>, a: Printable, b: Printable, x: seq<byte>, y: seq<byte>)
    requires a.Valid(m) && b.Valid(m) && Printed(m, a) == x && Printed(m, b) == y
    ensures Pair(a, b).Valid(m) && Printed(m, Pair(a, b)) == [40] + x + [44, 32] + y + [41]
  {
  }

  lemma ListOf(m: seq<byte>, a: Printable, b: Printable, x: seq<byte>, y: seq<byte>)
    requires a.Valid(m) && b.Valid(m) && Printed(m, a) == x && Printed(m, b) == y
    ensures List([a, b]).Valid(m) && Printed(m, List([a, b])) == [91] + Joined([x, y]) + [93]
  {
    assert [a, b][1..] == [b] && [b][1..] == [];
    assert Parts(m, [a, b]) == [Printed(m, a)] + Parts(m, [b]) && Parts(m, [b]) == [Printed(m, b)] + Parts(m, []);
    assert Parts(m, [a, b]) == [x, y];
  }

  lemma TwoJoined(a: seq<byte>, b: seq<byte>)
    ensures Joined([a, b]) == a + Ascii(", ") + b
  {
    assert [a, b] == [a] + [b];
    JoinedSplits([a], [b]);
    JoinedSplits([b], [b]);
  }

  lemma ScalarExamples(m: seq<byte>)
    ensures Printed(m, Char(97)) == Ascii("a") && Printed(m, Number(25)) == Ascii("25")
    ensures Printed(m, Truth(true)) == Ascii("true") && Printed(m, Truth(false)) == Ascii("false")
  {
    assert Digits(25, 10) == Digits(2, 10) + [5];
  }

  lemma FirstPairSpelled()
    ensures [40] + Ascii("a") + [44, 32] + Ascii("true") + [41] == Ascii("(a, true)")
  {
  }

  lemma SecondPairSpelled()
    ensures [40] + Ascii("25") + [44, 32] + Ascii("false") + [41] == Ascii("(25, false)")
  {
  }

  /** An instance: a list of pairs. */
  lemma ListExample(m: seq<byte>)
    ensures var pairs := [Pair(Char(97), Truth(true)), Pair(Number(25), Truth(false))];
            && List(pairs).Valid(m)
            && Printed(m, List(pairs)) == [91] + (Ascii("(a, true)") + Ascii(", ") + Ascii("(25, false)")) + [93]
  {
    ScalarExamples(m);
    FirstPairSpelled();
    SecondPairSpelled();
    hide Printed, Ascii, Joined;
    PairOf(m, Char(97), Truth(true), Ascii("a"), Ascii("true"));
    PairOf(m, Number(25), Truth(false), Ascii("25"), Ascii("false"));
    ListOf(m, Pair(Char(97), Truth(true)), Pair(Number(25), Truth(false)), Ascii("(a, true)"), Ascii("(25, false)"));
    TwoJoined(Ascii("(a, true)"), Ascii("(25, false)"));
  }

  /** Instances: the empty list, a wide text cut to its low bytes, an argument of no known kind. */
  lemma PrintedExamples(m: seq<byte>, fs: Spec)
    ensures Printed(m, List([])) == Ascii("[]") && Printed(m, WideText([104, 0x169])) == Ascii("hi")
    ensures Render(m, Unsupported, fs) == Ascii("[unsupported]")
  {
  }
}
