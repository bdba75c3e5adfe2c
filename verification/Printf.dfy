/** The formatting engine of lib-clib/src/printf.cpp, built without floating point: what a format
    and its arguments print, and the code that prints it through a buffer of bounded size. */
module Printf {

  import opened Digits
  import opened Machine

  // The digit buffer of FormatInt and FormatHex, and its last index.
  const BUFFER_SIZE: int := 64
  const LAST: int := 63

  /* ---- What one conversion prints ---- */

  // The flags, width and precision of a conversion.
  datatype Directive = Directive(zero: bool, left: bool, width: nat, hasPrecision: bool, precision: nat)

  // How many places are filled with zeros.
  function ZeroPlaces(d: Directive): int {
    Min(LAST, Max(if d.hasPrecision then d.precision else 0, if d.zero then d.width else 0))
  }

  function Sign(negative: bool): Text {
    if negative then "-" else ""
  }

  // Digits set into a field: zeros, a sign before them, blanks on one side.
  function Field(d: Directive, digits: Text, negative: bool): Text {
    var field := Padded(d, digits, negative);
    field + Repeat(d.width - |field|, ' ')
  }

  // What of it goes through the digit buffer.
  function Padded(d: Directive, digits: Text, negative: bool): Text {
    var number := Sign(negative) + PadLeft(digits, ZeroPlaces(d), '0');
    if d.left then number else PadLeft(number, Min(LAST, d.width), ' ')
  }

  function IntText(d: Directive, arg: int, negative: bool): Text
    requires 0 <= arg
  {
    Field(d, Numeral(arg, 10, false), negative)
  }

  function HexText(d: Directive, arg: int, upper: bool): Text
    requires 0 <= arg
  {
    Field(d, Numeral(arg, 16, upper), false)
  }

  function StringText(d: Directive, s: Text): Text {
    var shown := if d.hasPrecision && d.precision < |s| then s[..d.precision] else s;
    if d.left then shown + Repeat(d.width - |shown|, ' ') else Repeat(d.width - |shown|, ' ') + shown
  }

  function PointerText(arg: int): Text
    requires 0 <= arg
  {
    "0x" + HexText(Directive(true, false, 8, false, 0), arg, false)
  }

  /** A field is as wide as asked for, or as the number with its zeros and sign needs: the sign is
      not counted among the zero-filled places. */
  lemma FieldLength(d: Directive, digits: Text, negative: bool)
    requires |digits| <= 10
    ensures |Field(d, digits, negative)|
         == Max(d.width, Max(|digits|, ZeroPlaces(d)) + if negative then 1 else 0)
  {
  }

  lemma NoBlanks(d: Directive, digits: Text, negative: bool)
    requires d.width <= Max(|digits|, ZeroPlaces(d)) + |Sign(negative)|
    ensures Field(d, digits, negative) == Sign(negative) + (Repeat(ZeroPlaces(d) - |digits|, '0') + digits)
  {
  }

  lemma NoSign(d: Directive, digits: Text)
    requires d.width <= Max(|digits|, ZeroPlaces(d))
    ensures Field(d, digits, false) == Repeat(ZeroPlaces(d) - |digits|, '0') + digits
  {
  }

  lemma RepeatValue(k: int, t: Text, base: int)
    requires 2 <= base <= 16 && AllHex(t)
    ensures AllHex(Repeat(k, '0') + t) && (InBase(t, base) ==> InBase(Repeat(k, '0') + t, base))
    ensures Value(Repeat(k, '0') + t, base) == Value(t, base)
  {
    if k <= 0 {
      assert Repeat(k, '0') + t == t;
    } else {
      ZerosValue(k, t, base);
    }
  }

  /** As long as no blanks are needed, what is printed is a sign and decimal digits that read back as the number. */
  lemma IntTextValue(d: Directive, arg: int, negative: bool)
    requires 0 <= arg && d.width <= Max(|Numeral(arg, 10, false)|, ZeroPlaces(d)) + |Sign(negative)|
    ensures var t := IntText(d, arg, negative);
            && Sign(negative) <= t
            && AllHex(t[|Sign(negative)|..]) && InBase(t[|Sign(negative)|..], 10)
            && Value(t[|Sign(negative)|..], 10) == arg
  {
    hide Numeral, Value, AllHex, InBase, Field, ZeroPlaces;
    var digits := Numeral(arg, 10, false);
    NumeralValue(arg, 10, false);
    NoBlanks(d, digits, negative);
    RepeatValue(ZeroPlaces(d) - |digits|, digits, 10);
    Unsigned(negative, Repeat(ZeroPlaces(d) - |digits|, '0') + digits);
  }

  lemma Unsigned(negative: bool, t: Text)
    ensures Sign(negative) <= Sign(negative) + t && (Sign(negative) + t)[|Sign(negative)|..] == t
  {
  }

  lemma HexTextValue(d: Directive, arg: int, upper: bool)
    requires 0 <= arg && d.width <= Max(|Numeral(arg, 16, upper)|, ZeroPlaces(d))
    ensures AllHex(HexText(d, arg, upper))
    ensures Value(HexText(d, arg, upper), 16) == arg
  {
    hide Numeral, Value, AllHex, InBase, Field, ZeroPlaces;
    var digits := Numeral(arg, 16, upper);
    NumeralValue(arg, 16, upper);
    NoSign(d, digits);
    RepeatValue(ZeroPlaces(d) - |digits|, digits, 16);
  }

  lemma DecimalFits(arg: int)
    requires 0 <= arg < UINT32
    ensures |Numeral(arg, 10, false)| <= 10
  {
    NumeralLength(arg, 10, false, 10);
    assert Power(10, 4) == 10000;
    assert Power(10, 8) == 100000000;
    assert Power(10, 10) == 10000000000;
  }

  lemma HexFits(arg: int, upper: bool)
    requires 0 <= arg < UINT32
    ensures |Numeral(arg, 16, upper)| <= 8
  {
    NumeralLength(arg, 16, upper, 8);
    assert Power(16, 4) == 0x1_0000;
  }

  /* ---- Arguments ---- */

  // The words on the argument list from position next on, and the strings pointers point to.
  datatype Args = Args(words: nat -> Word, strings: Word -> Text, next: nat)
  {
    function Head(): Word {
      words(next)
    }

    function Rest(): Args {
      this.(next := next + 1)
    }
  }

  // A word taken as a signed number.
  function Signed(w: Word): int {
    if w > INT_MAX then w - UINT32 else w
  }

  /* ---- Reading a conversion ---- */

  predicate IsDecimal(c: char) {
    '0' <= c <= '9'
  }

  // The next character of a format, or the NUL that ends it.
  function At(fmt: Text): char {
    if fmt == [] then '\0' else fmt[0]
  }

  // Decimal digits added to a number read so far.
  function Number(fmt: Text, n: nat): (r: (nat, Text))
    ensures |r.1| <= |fmt|
    decreases |fmt|
  {
    if IsDecimal(At(fmt)) then Number(fmt[1..], 10 * n + (fmt[0] as int - '0' as int)) else (n, fmt)
  }

  // What follows a percent sign: flag, width, precision and the letter l. Then the rest of the
  // format, which starts with the conversion letter, and the arguments left.
  datatype Reading = Reading(directive: Directive, rest: Text, args: Args)

  function ReadDirective(fmt: Text, args: Args): (r: Reading)
    ensures |r.rest| <= |fmt|
  {
    var zero := At(fmt) == '0';
    var left := At(fmt) == '-';
    var afterFlag := if zero || left then fmt[1..] else fmt;
    var (width, afterWidth) := Number(afterFlag, 0);
    ReadPrecision(zero, left, width, afterWidth, args)
  }

  function ReadPrecision(zero: bool, left: bool, width: nat, fmt: Text, args: Args): (r: Reading)
    ensures |r.rest| <= |fmt|
  {
    if At(fmt) != '.' then
      Reading(Directive(zero, left, width, false, 0), AfterLong(fmt), args)
    else if At(fmt[1..]) == '*' then
      Reading(Directive(zero, left, width, true, Abs(Signed(args.Head()))), AfterLong(fmt[2..]), args.Rest())
    else
      var (precision, rest) := Number(fmt[1..], 0);
      Reading(Directive(zero, left, width, true, precision), AfterLong(rest), args)
  }

  function AfterLong(fmt: Text): (rest: Text)
    ensures |rest| <= |fmt|
  {
    if At(fmt) == 'l' then fmt[1..] else fmt
  }

  predicate IsConversion(c: char) {
    c == 'c' || c == 'd' || c == 'i' || c == 'p' || c == 's' || c == 'u' || c == 'X' || c == 'x'
  }

  function Converted(d: Directive, c: char, args: Args): Text
    requires IsConversion(c)
  {
    var w := args.Head();
    if c == 'c' then [(w % 256) as char]
    else if c == 'd' || c == 'i' then IntText(d, Abs(Signed(w)), Signed(w) < 0)
    else if c == 'p' then PointerText(w)
    else if c == 's' then StringText(d, args.strings(w))
    else if c == 'u' then IntText(d, w, false)
    else HexText(d, w, c == 'X')
  }

  // Everything a format prints, up to its NUL. A letter that is no conversion is printed, and the format read on
  // from that letter, not from behind it.
  function Format(fmt: Text, args: Args): Text
    decreases |fmt|
  {
    if At(fmt) == '\0' then []
    else if fmt[0] != '%' then [fmt[0]] + Format(fmt[1..], args)
    else
      var r := ReadDirective(fmt[1..], args);
      var c := At(r.rest);
      if IsConversion(c) then Converted(r.directive, c, r.args) + Format(r.rest[1..], r.args.Rest())
      else [c] + Format(r.rest, r.args)
  }

  /** So such a letter is printed twice; a percent sign is printed once and then begins a directive of its own; and
      at the end of the format a NUL is printed, once. */
  lemma UnknownLetter(fmt: Text, args: Args)
    requires At(fmt) == '%' && !IsConversion(At(ReadDirective(fmt[1..], args).rest))
    ensures var r := ReadDirective(fmt[1..], args);
            var c := At(r.rest);
            Format(fmt, args) == if c == '\0' then [c]
                                 else if c == '%' then [c] + Format(r.rest, r.args)
                                 else [c, c] + Format(r.rest[1..], r.args)
  {
    hide ReadDirective;
  }

  /** %% is not a way to print a percent sign: what follows it is converted, and takes an argument. */
  lemma PercentPercent(c: char, tail: Text, args: Args)
    requires IsConversion(c)
    ensures Format("%%" + ([c] + tail), args)
         == "%" + (Converted(Directive(false, false, 0, false, 0), c, args) + Format(tail, args.Rest()))
  {
    hide Converted, Format;
    var rest := [c] + tail;
    var plain := Directive(false, false, 0, false, 0);
    assert ("%%" + rest)[1..] == "%" + rest && ("%" + rest)[1..] == rest;
    assert ReadDirective("%" + rest, args) == Reading(plain, "%" + rest, args);
    assert ReadDirective(rest, args) == Reading(plain, rest, args);
    UnknownLetter("%%" + rest, args);
    ConversionLetter("%" + rest, args);
    assert rest[1..] == tail;
  }

  lemma ConversionLetter(fmt: Text, args: Args)
    requires At(fmt) == '%' && IsConversion(At(ReadDirective(fmt[1..], args).rest))
    ensures var r := ReadDirective(fmt[1..], args);
            Format(fmt, args) == Converted(r.directive, At(r.rest), r.args) + Format(r.rest[1..], r.args.Rest())
  {
    hide ReadDirective, Converted;
  }

  /* ---- What every conversion prints ---- */

  // How a precision is given.
  datatype Precision = Default | Given(digits: Text) | Star

  predicate AllDecimal(t: Text) {
    forall c :: c in t ==> IsDecimal(c)
  }

  // A conversion as it is written: a flag, the digits of a width, a precision, the letter l, and the conversion
  // letter. A width that begins with 0 has that taken for a flag.
  datatype Spec = Spec(flag: Text, width: Text, precision: Precision, long: bool, letter: char)

  predicate Proper(s: Spec) {
    && (s.flag == "" || s.flag == "0" || s.flag == "-") && AllDecimal(s.width)
    && (s.flag == "" && s.width != "" ==> s.width[0] != '0')
    && (s.precision.Given? ==> AllDecimal(s.precision.digits)) && IsConversion(s.letter)
  }

  function Written(s: Spec): Text {
    "%" + (s.flag + (s.width + (PrecisionText(s.precision) + (LongText(s.long) + [s.letter]))))
  }

  function PrecisionText(p: Precision): Text {
    match p
    case Default => ""
    case Given(digits) => "." + digits
    case Star => ".*"
  }

  function LongText(long: bool): Text {
    if long then "l" else ""
  }

  lemma {:induction false} DecimalsAreHex(t: Text)
    requires AllDecimal(t)
    ensures AllHex(t) && InBase(t, 10)
  {
  }

  // The directive that was meant, and the arguments left when the precision has taken its own.
  function Meant(s: Spec, args: Args): Directive
    requires Proper(s)
  {
    DecimalsAreHex(s.width);
    var precision := PrecisionMeant(s.precision, args);
    Directive(s.flag == "0", s.flag == "-", Value(s.width, 10), !s.precision.Default?, precision)
  }

  function PrecisionMeant(p: Precision, args: Args): nat
    requires p.Given? ==> AllDecimal(p.digits)
  {
    match p
    case Default => 0
    case Given(digits) => DecimalsAreHex(digits); Value(digits, 10)
    case Star => Abs(Signed(args.Head()))
  }

  function ArgsMeant(p: Precision, args: Args): Args {
    if p.Star? then args.Rest() else args
  }

  // What comes next of a text is no digit of a number before it.
  predicate EndsNumber(t: Text) {
    !IsDecimal(At(t))
  }

  lemma {:induction false} NumberOn(t: Text, more: Text, n: nat)
    requires AllDecimal(t) && EndsNumber(more)
    ensures AllHex(t) && Number(t + more, n) == (n * Power(10, |t|) + Value(t, 10), more)
    decreases |t|
  {
    DecimalsAreHex(t);
    if t == "" {
      assert t + more == more;
    } else {
      var rest := t[1..];
      assert (t + more)[1..] == rest + more;
      FirstDigit(t);
      assert IsDecimal(t[0]) by {
        assert t[0] in t;
      }
      NumberOn(rest, more, 10 * n + (t[0] as int - '0' as int));
      Distributes(n, t[0] as int - '0' as int, Power(10, |rest|));
    }
  }

  lemma Distributes(n: int, d: int, p: int)
    ensures (10 * n + d) * p == n * (10 * p) + d * p
  {
  }

  // The value of a text from its first digit on.
  lemma {:induction false} FirstDigit(t: Text)
    requires t != "" && AllDecimal(t)
    ensures AllHex(t) && AllHex(t[1..])
    ensures Value(t, 10) == (t[0] as int - '0' as int) * Power(10, |t| - 1) + Value(t[1..], 10)
    decreases |t|
  {
    DecimalsAreHex(t);
    DecimalsAreHex(t[1..]);
    var front := t[..|t| - 1];
    if |t| > 1 {
      FirstDigit(front);
      assert t[1..][..|t| - 2] == front[1..] && t[1..][|t| - 2] == t[|t| - 1];
      TenTimes(t[0] as int - '0' as int, Power(10, |t| - 2), Value(front[1..], 10));
    } else {
      assert t[1..] == "";
    }
  }

  lemma TenTimes(d: int, p: int, v: int)
    ensures (d * p + v) * 10 == d * (10 * p) + v * 10
  {
  }

  // Behind the width, and behind the precision.
  function Tail(s: Spec, rest: Text): Text {
    LongText(s.long) + ([s.letter] + rest)
  }

  lemma TailReads(s: Spec, rest: Text)
    requires Proper(s)
    ensures EndsNumber(Tail(s, rest)) && At(Tail(s, rest)) != '.' && At(Tail(s, rest)) != '*'
    ensures AfterLong(Tail(s, rest)) == [s.letter] + rest
    ensures At(Tail(s, rest)) != '0' && At(Tail(s, rest)) != '-'
  {
  }

  lemma PrecisionReads(s: Spec, zero: bool, left: bool, width: nat, rest: Text, args: Args)
    requires Proper(s)
    ensures ReadPrecision(zero, left, width, PrecisionText(s.precision) + Tail(s, rest), args)
         == Reading(Directive(zero, left, width, !s.precision.Default?, PrecisionMeant(s.precision, args)),
                    [s.letter] + rest, ArgsMeant(s.precision, args))
  {
    hide Number, Tail, EndsNumber, AfterLong, IsConversion, Value;
    TailReads(s, rest);
    match s.precision {
      case Default =>
        assert "" + Tail(s, rest) == Tail(s, rest);
      case Given(digits) =>
        NumberOn(digits, Tail(s, rest), 0);
        NotStar(digits, Tail(s, rest));
        assert ("." + digits + Tail(s, rest))[1..] == digits + Tail(s, rest);
      case Star =>
        assert (".*" + Tail(s, rest))[1..] == "*" + Tail(s, rest);
        assert (".*" + Tail(s, rest))[2..] == Tail(s, rest);
    }
  }

  lemma NotStar(digits: Text, more: Text)
    requires AllDecimal(digits) && At(more) != '*'
    ensures At(digits + more) != '*'
  {
    if digits == "" {
      assert digits + more == more;
    } else {
      assert digits[0] in digits;
    }
  }

  lemma WidthEnds(s: Spec, rest: Text)
    requires Proper(s)
    ensures var more := PrecisionText(s.precision) + Tail(s, rest);
            EndsNumber(more) && At(more) != '0' && At(more) != '-'
  {
    TailReads(s, rest);
    var more := PrecisionText(s.precision) + Tail(s, rest);
    assert s.precision.Default? ==> more == Tail(s, rest);
  }

  lemma DirectiveReads(s: Spec, rest: Text, args: Args)
    requires Proper(s)
    ensures ReadDirective((Written(s) + rest)[1..], args)
         == Reading(Meant(s, args), [s.letter] + rest, ArgsMeant(s.precision, args))
  {
    hide Number, ReadPrecision, PrecisionMeant;
    var more := PrecisionText(s.precision) + Tail(s, rest);
    var fmt := s.flag + (s.width + more);
    Reassociated(s, rest);
    WidthEnds(s, rest);
    NumberOn(s.width, more, 0);
    PrecisionReads(s, s.flag == "0", s.flag == "-", Value(s.width, 10), rest, args);
    if s.flag == "" {
      assert fmt == s.width + more;
      NoFlag(s.width, more);
    } else {
      assert fmt[1..] == s.width + more;
    }
  }

  lemma Reassociated(s: Spec, rest: Text)
    ensures (Written(s) + rest)[1..] == s.flag + (s.width + (PrecisionText(s.precision) + Tail(s, rest)))
  {
    var tail := LongText(s.long) + [s.letter];
    assert Tail(s, rest) == tail + rest;
  }

  lemma NoFlag(width: Text, more: Text)
    requires AllDecimal(width) && (width != "" ==> width[0] != '0') && At(more) != '0' && At(more) != '-'
    ensures At(width + more) != '0' && At(width + more) != '-'
  {
    if width == "" {
      assert width + more == more;
    } else {
      assert width[0] in width;
    }
  }

  // A conversion in a format, with what follows it.
  lemma FormatSpec(s: Spec, rest: Text, args: Args)
    requires Proper(s)
    ensures Format(Written(s) + rest, args)
         == Converted(Meant(s, args), s.letter, ArgsMeant(s.precision, args))
            + Format(rest, ArgsMeant(s.precision, args).Rest())
  {
    hide Format, Converted, ReadDirective, Meant;
    DirectiveReads(s, rest, args);
    ConversionLetter(Written(s) + rest, args);
    assert ([s.letter] + rest)[1..] == rest;
  }

  // Digits set into a field: blanks in front or behind, a sign, and zeros in front of the digits as far as the
  // precision or the zero flag with its width asks for them.
  ghost predicate Set(text: Text, sign: Text, digits: Text, d: Directive) {
    exists before: nat, after: nat ::
      && text == Repeat(before, ' ') + (sign + digits) + Repeat(after, ' ')
      && before + |sign| + |digits| + after == Max(d.width, |sign| + |digits|)
      && (d.left ==> before == 0) && (!d.left && d.width <= LAST ==> after == 0)
  }

  // No more leading zeros than that, and no fewer.
  predicate Zeroed(digits: Text, d: Directive) {
    var places := Min(LAST, Max(if d.hasPrecision then d.precision else 0, if d.zero then d.width else 0));
    digits != "" && places <= |digits| && (|digits| > places && |digits| > 1 ==> digits[0] != '0')
  }

  lemma FieldSet(d: Directive, digits: Text, negative: bool) returns (zeroed: Text)
    ensures zeroed == Repeat(ZeroPlaces(d) - |digits|, '0') + digits
    ensures Set(Field(d, digits, negative), Sign(negative), zeroed, d)
  {
    hide Repeat, ZeroPlaces, Sign;
    zeroed := PadLeft(digits, ZeroPlaces(d), '0');
    var number := Sign(negative) + zeroed;
    var padded := Padded(d, digits, negative);
    var before: nat := |padded| - |number|;
    var after: nat := Max(0, d.width - |padded|);
    BlanksBefore(d, number);
    EnoughBlanks(d.width - |padded|);
    assert Field(d, digits, negative) == Repeat(before, ' ') + number + Repeat(after, ' ');
  }

  lemma BlanksBefore(d: Directive, number: Text)
    ensures var padded := if d.left then number else PadLeft(number, Min(LAST, d.width), ' ');
            |padded| >= |number| && padded == Repeat(|padded| - |number|, ' ') + number
  {
  }

  lemma EnoughBlanks(n: int)
    ensures Repeat(n, ' ') == Repeat(Max(0, n), ' ')
  {
  }

  lemma DigitsZeroed(d: Directive, n: int, base: int, upper: bool) returns (zeroed: Text)
    requires 0 <= n && 2 <= base <= 16
    ensures zeroed == Repeat(ZeroPlaces(d) - |Numeral(n, base, upper)|, '0') + Numeral(n, base, upper)
    ensures AllHex(zeroed) && InBase(zeroed, base) && Value(zeroed, base) == n && Zeroed(zeroed, d)
    ensures InCase(zeroed, upper)
  {
    hide Numeral, Value, AllHex, InBase, InCase, ZeroPlaces, Zeroed, Repeat;
    var digits := Numeral(n, base, upper);
    zeroed := Repeat(ZeroPlaces(d) - |digits|, '0') + digits;
    NumeralValue(n, base, upper);
    NumeralShape(n, base, upper);
    ZeroNumeralShort(base, upper);
    RepeatValue(ZeroPlaces(d) - |digits|, digits, base);
    ZerosShape(d, digits, upper);
  }

  lemma ZeroNumeralShort(base: int, upper: bool)
    requires 2 <= base <= 16
    ensures |Numeral(0, base, upper)| == 1
  {
  }

  lemma ZerosShape(d: Directive, digits: Text, upper: bool)
    requires digits != "" && InCase(digits, upper) && (|digits| > 1 ==> digits[0] != '0')
    ensures var zeroed := Repeat(ZeroPlaces(d) - |digits|, '0') + digits;
            InCase(zeroed, upper) && Zeroed(zeroed, d)
  {
    var zeros := Repeat(ZeroPlaces(d) - |digits|, '0');
    assert InCase(zeros, upper);
    assert zeros == "" ==> zeros + digits == digits;
  }

  /** %d and %i print a minus sign exactly if the word is above INT_MAX, and decimal digits that read back as its
      absolute value as a signed number, in the field that was written. */
  lemma SignedPrinted(s: Spec, rest: Text, args: Args) returns (text: Text, digits: Text)
    requires Proper(s) && (s.letter == 'd' || s.letter == 'i')
    ensures var left := ArgsMeant(s.precision, args);
            var word := left.Head();
            && Format(Written(s) + rest, args) == text + Format(rest, left.Rest())
            && Set(text, if word > INT_MAX then "-" else "", digits, Meant(s, args)) && Zeroed(digits, Meant(s, args))
            && AllHex(digits) && InBase(digits, 10)
            && Value(digits, 10) == if word > INT_MAX then UINT32 - word else word
  {
    hide Format, Numeral, Field, ZeroPlaces, Set, Zeroed, Value, AllHex, InBase, Meant, InCase;
    var d, word := Meant(s, args), ArgsMeant(s.precision, args).Head();
    FormatSpec(s, rest, args);
    var n := Abs(Signed(word));
    DecimalFits(n);
    text := IntText(d, n, word > INT_MAX);
    var zeroed := DigitsZeroed(d, n, 10, false);
    digits := FieldSet(d, Numeral(n, 10, false), word > INT_MAX);
  }

  /** %u prints no sign, and decimal digits that read back as the word. */
  lemma UnsignedPrinted(s: Spec, rest: Text, args: Args) returns (text: Text, digits: Text)
    requires Proper(s) && s.letter == 'u'
    ensures var left := ArgsMeant(s.precision, args);
            && Format(Written(s) + rest, args) == text + Format(rest, left.Rest())
            && Set(text, "", digits, Meant(s, args)) && Zeroed(digits, Meant(s, args))
            && AllHex(digits) && InBase(digits, 10) && Value(digits, 10) == left.Head()
  {
    hide Format, Numeral, Field, ZeroPlaces, Set, Zeroed, Value, AllHex, InBase, Meant, InCase;
    var d, word := Meant(s, args), ArgsMeant(s.precision, args).Head();
    FormatSpec(s, rest, args);
    DecimalFits(word);
    text := IntText(d, word, false);
    var zeroed := DigitsZeroed(d, word, 10, false);
    digits := FieldSet(d, Numeral(word, 10, false), false);
  }

  /** %x and %X print hexadecimal digits of their case that read back as the word. */
  lemma HexPrinted(s: Spec, rest: Text, args: Args) returns (text: Text, digits: Text)
    requires Proper(s) && (s.letter == 'x' || s.letter == 'X')
    ensures var left := ArgsMeant(s.precision, args);
            && Format(Written(s) + rest, args) == text + Format(rest, left.Rest())
            && Set(text, "", digits, Meant(s, args)) && Zeroed(digits, Meant(s, args))
            && AllHex(digits) && InCase(digits, s.letter == 'X') && Value(digits, 16) == left.Head()
  {
    hide Format, Numeral, Field, ZeroPlaces, Set, Zeroed, Value, AllHex, InBase, Meant, InCase;
    var d, word := Meant(s, args), ArgsMeant(s.precision, args).Head();
    FormatSpec(s, rest, args);
    HexFits(word, s.letter == 'X');
    text := HexText(d, word, s.letter == 'X');
    var zeroed := DigitsZeroed(d, word, 16, s.letter == 'X');
    digits := FieldSet(d, Numeral(word, 16, s.letter == 'X'), false);
  }

  /** %s prints the string, cut to the precision if one is given, with blanks in front, or behind if flagged. */
  lemma StringPrinted(s: Spec, rest: Text, args: Args)
    requires Proper(s) && s.letter == 's'
    ensures var d, left := Meant(s, args), ArgsMeant(s.precision, args);
            var string_ := left.strings(left.Head());
            var n := if d.hasPrecision && d.precision < |string_| then d.precision else |string_|;
            var blanks := Repeat(d.width - n, ' ');
            Format(Written(s) + rest, args)
            == (if d.left then string_[..n] + blanks else blanks + string_[..n]) + Format(rest, left.Rest())
  {
    hide Format, Meant;
    FormatSpec(s, rest, args);
  }

  /** %c prints the character whose code is the word's low byte; %p prints 0x and eight digits. */
  lemma CharPrinted(s: Spec, rest: Text, args: Args)
    requires Proper(s) && s.letter == 'c'
    ensures var left := ArgsMeant(s.precision, args);
            Format(Written(s) + rest, args) == [(left.Head() % 0x100) as char] + Format(rest, left.Rest())
  {
    hide Format, Meant;
    FormatSpec(s, rest, args);
  }

  lemma PointerPrinted(s: Spec, rest: Text, args: Args) returns (digits: Text)
    requires Proper(s) && s.letter == 'p'
    ensures var left := ArgsMeant(s.precision, args);
            && Format(Written(s) + rest, args) == "0x" + digits + Format(rest, left.Rest())
            && |digits| == 8 && AllHex(digits) && InCase(digits, false) && Value(digits, 16) == left.Head()
  {
    hide Format, Meant, HexText, Value, AllHex, InCase;
    var left := ArgsMeant(s.precision, args);
    FormatSpec(s, rest, args);
    digits := EightDigits(left.Head());
    assert "0x" + digits + Format(rest, left.Rest()) == ("0x" + digits) + Format(rest, left.Rest());
  }

  lemma EightDigits(word: Word) returns (digits: Text)
    ensures digits == HexText(Directive(true, false, 8, false, 0), word, false)
    ensures |digits| == 8 && AllHex(digits) && InCase(digits, false) && Value(digits, 16) == word
  {
    hide Numeral, Value, AllHex, InCase, InBase, Field;
    var d := Directive(true, false, 8, false, 0);
    HexFits(word, false);
    digits := DigitsZeroed(d, word, 16, false);
    NoSign(d, Numeral(word, 16, false));
  }

  /* ---- The code ---- */

  class Console {
    var text: Text
    constructor ()
      ensures text == []
    {
      text := [];
    }
  }

  // How many of the first n characters printed a buffer of a given capacity keeps.
  function Kept(n: int, capacity: int): int {
    Max(0, Min(n, capacity - 1))
  }

  /** The state of PutChar: the output pointer, or none, and the running total. */
  class Context {
    const console: Console
    const toBuffer: bool
    const str: array<char>
    const capacity: int

    var out: int
    var total: int

    // What was printed, how much will be at most, and what was there before.
    ghost var sent: Text
    ghost const bound: int
    ghost const consoleBefore: Text
    ghost const strBefore: Text

    ghost predicate Valid()
      reads this, console, str
    {
      && total == |sent| <= bound
      && |strBefore| == str.Length
      && (if toBuffer then
            && console.text == consoleBefore
            && Kept(bound, capacity) < str.Length
            && out == Kept(total, capacity)
            && str[..out] == sent[..out] && str[out..] == strBefore[out..]
          else
            console.text == consoleBefore + sent && str[..] == strBefore)
    }

    constructor (console: Console, toBuffer: bool, str: array<char>, capacity: int, ghost bound: int)
      requires 0 <= bound && (toBuffer ==> Kept(bound, capacity) < str.Length)
      ensures Valid() && sent == [] && this.bound == bound
      ensures this.console == console && this.toBuffer == toBuffer && this.str == str && this.capacity == capacity
      ensures consoleBefore == console.text && strBefore == str[..]
    {
      this.console, this.toBuffer, this.str, this.capacity := console, toBuffer, str, capacity;
      this.bound, consoleBefore, strBefore := bound, console.text, str[..];
      out, total, sent := 0, 0, [];
    }

    method PutChar(c: char)
      requires Valid() && total < bound
      modifies this, console, str
      ensures Valid() && sent == old(sent) + [c]
    {
      total := total + 1;
      sent := sent + [c];
      if toBuffer {
        if total < capacity {
          str[out] := c;
          out := out + 1;
        }
        return;
      }
      console.text := console.text + [c];
    }

    // A run of one character.
    method PutRepeat(n: int, c: char)
      requires Valid() && total + |Repeat(n, c)| <= bound
      modifies this, console, str
      ensures Valid() && sent == old(sent) + Repeat(n, c)
    {
      var i := 0;
      while i < n
        invariant 0 <= i && i <= Max(0, n) && Valid()
        invariant sent == old(sent) + Repeat(i, c)
      {
        assert Repeat(i + 1, c) == Repeat(i, c) + [c];
        PutChar(c);
        i := i + 1;
      }
      assert Repeat(i, c) == Repeat(n, c);
    }

    // The characters of a buffer from an index on.
    method PutFrom(buffer: array<char>, p: int)
      requires Valid() && 0 <= p <= buffer.Length && total + buffer.Length - p <= bound && buffer != str
      modifies this, console, str
      ensures Valid() && sent == old(sent) + old(buffer[p..])
    {
      var q := p;
      while q < buffer.Length
        invariant p <= q <= buffer.Length && Valid()
        invariant sent == old(sent) + old(buffer[p..q])
      {
        PutChar(buffer[q]);
        q := q + 1;
      }
    }

    // The digit loop shared by both bases: the numeral is written backwards from the buffer's end.
    method WriteDigits(buffer: array<char>, arg: int, base: int, upper: bool) returns (p: int)
      requires buffer.Length == BUFFER_SIZE && 0 <= arg && (base == 10 || base == 16)
      requires |Numeral(arg, base, upper)| <= 10
      modifies buffer
      ensures 0 <= p < LAST && buffer[p + 1..] == Numeral(arg, base, upper)
    {
      ZeroNumeral(base, upper);
      hide Numeral, NumeralOrNone, Digit, LowDigit, Shifted;
      p := LAST;
      if arg == 0 {
        buffer[p] := '0';
        return p - 1;
      }
      var n := arg;
      SomeNumeral(n, base, upper);
      NothingMore(Numeral(n, base, upper));
      assert buffer[p + 1..] == "";
      while n != 0 && p > 0
        invariant 0 <= n && 0 <= p <= LAST
        invariant Numeral(arg, base, upper) == NumeralOrNone(n, base, upper) + buffer[p + 1..]
        decreases n
      {
        ghost var before, more := buffer[..], NumeralOrNone(Shifted(n, base), base, upper);
        LastDigit(n, base, upper);
        var digit := Digit(LowDigit(n, base), upper);
        buffer[p] := digit;
        WrittenAt(before, buffer[..], p, digit);
        Regroup(more, digit, before[p + 1..]);
        p := p - 1;
        n := Shifted(n, base);
      }
    }

    // Fills the buffer backwards until the text in it has a given width or the buffer is full.
    method PadBuffer(buffer: array<char>, p: int, width: int, fill: char) returns (q: int)
      requires buffer.Length == BUFFER_SIZE && -1 <= p < LAST
      modifies buffer
      ensures -1 <= q <= p && (0 <= p ==> 0 <= q)
      ensures buffer[q + 1..] == PadLeft(old(buffer[p + 1..]), Min(LAST, width), fill)
    {
      ghost var text := buffer[p + 1..];
      hide PadLeft, Filled, Min;
      FilledNone(text, fill);
      q := p;
      while LAST - q < width && q > 0
        invariant -1 <= q <= p && (0 <= p ==> 0 <= q) && (q < p ==> LAST - q <= width)
        invariant buffer[q + 1..] == Filled(p - q, fill, text)
      {
        ghost var before := buffer[..];
        buffer[q] := fill;
        WrittenAt(before, buffer[..], q, fill);
        FilledOnce(p - q, fill, text);
        q := q - 1;
      }
      PadLeftUpTo(text, width, fill, p - q);
    }

    // From the digits on, both bases do the same but for the sign.
    method FinishField(d: Directive, buffer: array<char>, p: int, negative: bool)
      requires Valid() && buffer.Length == BUFFER_SIZE && 0 <= p < LAST && buffer != str
      requires total + |Field(d, buffer[p + 1..], negative)| <= bound
      modifies this, console, str, buffer
      ensures Valid() && sent == old(sent) + Field(d, old(buffer[p + 1..]), negative)
    {
      hide Max, Repeat, Field, Padded;
      FieldIs(d, buffer[p + 1..], negative);
      var q := PadField(d, buffer, p, negative);
      PutField(buffer, q, d.width);
    }

    method PadField(d: Directive, buffer: array<char>, p: int, negative: bool) returns (q: int)
      requires buffer.Length == BUFFER_SIZE && 0 <= p < LAST
      modifies buffer
      ensures -1 <= q < LAST && buffer[q + 1..] == Padded(d, old(buffer[p + 1..]), negative)
    {
      hide ZeroPlaces, PadLeft, Places, Padded, Sign;
      PaddedIs(d, buffer[p + 1..], negative);
      q := PadNumber(d, buffer, p, negative);
      q := PadIf(buffer, q, !d.left, d.width, ' ');
    }

    // The buffer from behind q on, and blanks up to the width.
    method PutField(buffer: array<char>, q: int, width: int)
      requires Valid() && buffer.Length == BUFFER_SIZE && -1 <= q < LAST && buffer != str
      requires total + Max(LAST - q, width) <= bound
      modifies this, console, str
      ensures Valid() && sent == old(sent) + (old(buffer[q + 1..]) + Repeat(width - (LAST - q), ' '))
    {
      var i := LAST - q;
      PutFrom(buffer, q + 1);
      PutRepeat(width - i, ' ');
    }

    // Zeros in front of the digits, and the sign in front of them.
    method PadNumber(d: Directive, buffer: array<char>, p: int, negative: bool) returns (q: int)
      requires buffer.Length == BUFFER_SIZE && 0 <= p < LAST
      modifies buffer
      ensures -1 <= q <= p
      ensures buffer[q + 1..] == Sign(negative) + PadLeft(old(buffer[p + 1..]), ZeroPlaces(d), '0')
    {
      hide PadLeft, ZeroPlaces;
      q := PadZeros(d, buffer, p);
      if negative {
        ghost var padded := buffer[q + 1..];
        buffer[q] := '-';
        q := q - 1;
        assert buffer[q + 1..] == "-" + padded;
      }
    }

    method PadZeros(d: Directive, buffer: array<char>, p: int) returns (q: int)
      requires buffer.Length == BUFFER_SIZE && 0 <= p < LAST
      modifies buffer
      ensures 0 <= q <= p
      ensures buffer[q + 1..] == PadLeft(old(buffer[p + 1..]), ZeroPlaces(d), '0')
    {
      ghost var digits := buffer[p + 1..];
      hide PadLeft, ZeroPlaces, Places, Max;
      q := PadIf(buffer, p, d.hasPrecision, d.precision, '0');
      q := PadIf(buffer, q, d.zero, d.width, '0');
      ZeroPlacesAre(d);
      PadTwice(digits, Places(d.hasPrecision, d.precision), Places(d.zero, d.width), '0');
    }

    method PadIf(buffer: array<char>, p: int, on: bool, width: int, fill: char) returns (q: int)
      requires buffer.Length == BUFFER_SIZE && -1 <= p < LAST
      modifies buffer
      ensures -1 <= q <= p && (0 <= p ==> 0 <= q)
      ensures buffer[q + 1..] == PadLeft(old(buffer[p + 1..]), Places(on, width), fill)
    {
      hide PadLeft, Min, Places;
      PlacesAre(on, width);
      // With a width of 0 the loop does nothing.
      q := PadBuffer(buffer, p, if on then width else 0, fill);
    }

    method FormatInt(d: Directive, arg: int, negative: bool)
      requires Valid() && 0 <= arg < UINT32 && total + |IntText(d, arg, negative)| <= bound
      modifies this, console, str
      ensures Valid() && sent == old(sent) + IntText(d, arg, negative)
    {
      hide Field, Numeral;
      var buffer := new char[BUFFER_SIZE];
      DecimalFits(arg);
      var p := WriteDigits(buffer, arg, 10, false);
      FinishField(d, buffer, p, negative);
    }

    method FormatHex(d: Directive, arg: int, upper: bool)
      requires Valid() && 0 <= arg < UINT32 && total + |HexText(d, arg, upper)| <= bound
      modifies this, console, str
      ensures Valid() && sent == old(sent) + HexText(d, arg, upper)
    {
      hide Field, Numeral;
      var buffer := new char[BUFFER_SIZE];
      HexFits(arg, upper);
      var p := WriteDigits(buffer, arg, 16, upper);
      FinishField(d, buffer, p, false);
    }

    method FormatString(d: Directive, s: Text)
      requires Valid() && total + |StringText(d, s)| <= bound
      modifies this, console, str
      ensures Valid() && sent == old(sent) + StringText(d, s)
    {
      hide Repeat, StringText, Behind;
      StringTextIs(d, s);
      var j: int := |s|;
      if d.hasPrecision {
        if d.precision < j {
          j := d.precision;
        }
      }
      ghost var was, shown, blanks := sent, s[..j], Repeat(d.width - j, ' ');
      if !d.left {
        PutRepeat(d.width - j, ' ');
        PutShown(d, s, j);
        Associates(was, blanks, shown);
        j := Behind(j, d.width);
        RepeatNegative(d.width - j, ' ');
        NothingMore(sent);
      } else {
        PutShown(d, s, j);
        Associates(was, shown, blanks);
      }
      PutRepeat(d.width - j, ' ');
    }

    // The loop that copies the string, up to the precision.
    method PutShown(d: Directive, s: Text, n: int)
      requires Valid() && n == (if d.hasPrecision && d.precision < |s| then d.precision else |s|) && total + n <= bound
      modifies this, console, str
      ensures Valid() && sent == old(sent) + s[..n]
    {
      var i, precision: int := 0, d.precision;
      while (!d.hasPrecision || precision != 0) && i < |s|
        invariant 0 <= i <= n && precision == d.precision - i && Valid()
        invariant sent == old(sent) + s[..i]
      {
        PutChar(s[i]);
        i := i + 1;
        precision := precision - 1;
      }
    }

    method FormatPointer(arg: int)
      requires Valid() && 0 <= arg < UINT32 && total + |PointerText(arg)| <= bound
      modifies this, console, str
      ensures Valid() && sent == old(sent) + PointerText(arg)
    {
      hide HexText;
      PutChar('0');
      PutChar('x');
      FormatHex(Directive(true, false, 8, false, 0), arg, false);
    }
  }

  function LowDigit(n: int, base: int): int
    requires 0 < base
  {
    n % base
  }

  function Shifted(n: int, base: int): int
    requires 0 < base
  {
    n / base
  }

  function NumeralOrNone(n: int, base: int, upper: bool): Text
    requires 0 <= n && 2 <= base <= 16
  {
    if n == 0 then "" else Numeral(n, base, upper)
  }

  lemma ZeroNumeral(base: int, upper: bool)
    requires base == 10 || base == 16
    ensures Numeral(0, base, upper) == "0" && NumeralOrNone(0, base, upper) == ""
  {
  }

  lemma SomeNumeral(n: int, base: int, upper: bool)
    requires 0 < n && (base == 10 || base == 16)
    ensures NumeralOrNone(n, base, upper) == Numeral(n, base, upper)
  {
  }

  lemma LastDigit(n: int, base: int, upper: bool)
    requires 0 < n && (base == 10 || base == 16)
    ensures 0 <= Shifted(n, base) < n && 0 <= LowDigit(n, base) < 16
    ensures NumeralOrNone(n, base, upper)
         == NumeralOrNone(Shifted(n, base), base, upper) + [Digit(LowDigit(n, base), upper)]
  {
  }

  // How many places one of the padding loops fills, if it is run.
  function Places(on: bool, width: int): int {
    if on then Min(LAST, width) else 0
  }

  lemma PlacesAre(on: bool, width: int)
    ensures Places(on, width) == Min(LAST, if on then width else 0)
  {
  }

  lemma ZeroPlacesAre(d: Directive)
    ensures ZeroPlaces(d) == Max(Places(d.hasPrecision, d.precision), Places(d.zero, d.width))
  {
  }

  lemma PaddedIs(d: Directive, digits: Text, negative: bool)
    ensures var number := Sign(negative) + PadLeft(digits, ZeroPlaces(d), '0');
            Padded(d, digits, negative) == PadLeft(number, Places(!d.left, d.width), ' ')
  {
  }

  lemma FieldIs(d: Directive, digits: Text, negative: bool)
    ensures var field := Padded(d, digits, negative);
            && Field(d, digits, negative) == field + Repeat(d.width - |field|, ' ')
            && |Field(d, digits, negative)| == Max(|field|, d.width)
  {
  }

  lemma Associates(a: Text, b: Text, c: Text)
    ensures (a + b) + c == a + (b + c)
  {
  }

  lemma NothingMore(a: Text)
    ensures a + "" == a
  {
  }

  // Where the index stands behind a padded string.
  function Behind(n: int, width: int): (j: int)
    ensures j > width
  {
    Max(n, width) + 1
  }

  lemma StringTextIs(d: Directive, s: Text)
    ensures var j := if d.hasPrecision && d.precision < |s| then d.precision else |s|;
            var blanks := Repeat(d.width - j, ' ');
            && StringText(d, s) == (if d.left then s[..j] + blanks else blanks + s[..j])
            && |StringText(d, s)| == j + |blanks|
  {
  }

  lemma RepeatNegative(n: int, c: char)
    requires n <= 0
    ensures Repeat(n, c) == ""
  {
  }

  // A text with k characters in front.
  function Filled(k: nat, c: char, t: Text): Text {
    Repeat(k, c) + t
  }

  lemma FilledNone(t: Text, c: char)
    ensures Filled(0, c, t) == t
  {
  }

  lemma FilledOnce(k: nat, c: char, t: Text)
    ensures [c] + Filled(k, c, t) == Filled(k + 1, c, t)
  {
  }

  lemma Regroup(a: Text, c: char, b: Text)
    ensures (a + [c]) + b == a + ([c] + b)
  {
  }

  // One more character in front of those at the buffer's end.
  lemma WrittenAt(before: Text, after: Text, q: int, c: char)
    requires 0 <= q < |before| == |after| && after == before[q := c]
    ensures after[q..] == [c] + before[q + 1..]
  {
  }

  lemma PadLeftUpTo(t: Text, width: int, fill: char, k: nat)
    requires k + |t| == width <= LAST || k + |t| == LAST <= width || (k == 0 && (width <= |t| || LAST <= |t|))
    ensures Filled(k, fill, t) == PadLeft(t, Min(LAST, width), fill)
  {
  }

  lemma PadTwice(t: Text, a: int, b: int, fill: char)
    ensures PadLeft(PadLeft(t, a, fill), b, fill) == PadLeft(t, Max(a, b), fill)
  {
  }

  /* ---- Reading a format by index ---- */

  function CharAt(fmt: Text, i: nat): char {
    if i < |fmt| then fmt[i] else '\0'
  }

  method ReadNumber(fmt: Text, i: nat) returns (n: nat, j: nat)
    requires i <= |fmt|
    ensures i <= j <= |fmt| && Number(fmt[i..], 0) == (n, fmt[j..])
  {
    n, j := 0, i;
    while IsDecimal(CharAt(fmt, j))
      invariant i <= j <= |fmt| && Number(fmt[i..], 0) == Number(fmt[j..], n)
      decreases |fmt| - j
    {
      n := n * 10 + (fmt[j] as int - '0' as int);
      j := j + 1;
    }
  }

  method Read(fmt: Text, i: nat, args: Args) returns (d: Directive, j: nat, rest: Args)
    requires i <= |fmt|
    ensures i <= j <= |fmt| && ReadDirective(fmt[i..], args) == Reading(d, fmt[j..], rest)
  {
    hide Number;
    j := i;
    var zero, left := false, false;
    if CharAt(fmt, j) == '0' {
      zero := true;
      j := j + 1;
    } else if CharAt(fmt, j) == '-' {
      left := true;
      j := j + 1;
    }
    var width;
    width, j := ReadNumber(fmt, j);
    d, j, rest := ReadTail(fmt, j, zero, left, width, args);
  }

  method ReadTail(fmt: Text, i: nat, zero: bool, left: bool, width: nat, args: Args)
      returns (d: Directive, j: nat, rest: Args)
    requires i <= |fmt|
    ensures i <= j <= |fmt| && ReadPrecision(zero, left, width, fmt[i..], args) == Reading(d, fmt[j..], rest)
  {
    hide Number;
    j, rest := i, args;
    var hasPrecision, precision := false, 0;
    if CharAt(fmt, j) == '.' {
      j := j + 1;
      if CharAt(fmt, j) == '*' {
        j := j + 1;
        precision := Abs(Signed(rest.Head()));
        rest := rest.Rest();
      } else {
        precision, j := ReadNumber(fmt, j);
      }
      hasPrecision := true;
    }
    if CharAt(fmt, j) == 'l' {
      j := j + 1;
    }
    d := Directive(zero, left, width, hasPrecision, precision);
  }

  // The switch over the conversion letters.
  method Convert(ctx: Context, d: Directive, c: char, args: Args)
    requires IsConversion(c) && ctx.Valid() && ctx.total + |Converted(d, c, args)| <= ctx.bound
    modifies ctx, ctx.console, ctx.str
    ensures ctx.Valid() && ctx.sent == old(ctx.sent) + Converted(d, c, args)
  {
    hide IntText, HexText, PointerText, StringText;
    var w := args.Head();
    match c {
      case 'c' => ctx.PutChar((w % 256) as char);
      case 'd' => ctx.FormatInt(d, Abs(Signed(w)), Signed(w) < 0);
      case 'i' => ctx.FormatInt(d, Abs(Signed(w)), Signed(w) < 0);
      case 'p' => ctx.FormatPointer(w);
      case 's' => ctx.FormatString(d, args.strings(w));
      case 'u' => ctx.FormatInt(d, w, false);
      case 'X' => ctx.FormatHex(d, w, true);
      case _ => ctx.FormatHex(d, w, false);
    }
  }

  /** The loop over a format prints exactly what the format means. */
  method Vprintf(ctx: Context, fmt: Text, args: Args)
    requires ctx.Valid() && ctx.total + |Format(fmt, args)| <= ctx.bound
    modifies ctx, ctx.console, ctx.str
    ensures ctx.Valid() && ctx.sent == old(ctx.sent) + Format(fmt, args)
  {
    hide Format, ReadDirective, Converted;
    var i, rest := 0, args;
    ghost var printed: Text := "";
    assert fmt[0..] == fmt;
    while CharAt(fmt, i) != '\0'
      invariant 0 <= i <= |fmt| && ctx.Valid()
      invariant ctx.sent == old(ctx.sent) + printed
      invariant Format(fmt, args) == printed + Format(fmt[i..], rest)
      decreases |fmt| - i
    {
      if fmt[i] != '%' {
        FormatChar(fmt, i, rest);
        ctx.PutChar(fmt[i]);
        printed := printed + [fmt[i]];
        i := i + 1;
        continue;
      }
      var d, j, left := Read(fmt, i + 1, rest);
      var c := CharAt(fmt, j);
      FormatConversion(fmt, i, rest, d, j, left);
      if IsConversion(c) {
        Convert(ctx, d, c, left);
        printed := printed + Converted(d, c, left);
        i, rest := j + 1, left.Rest();
      } else {
        ctx.PutChar(c);
        printed := printed + [c];
        i, rest := j, left;
      }
    }
    FormatEnd(fmt, i, rest);
  }

  lemma FormatEnd(fmt: Text, i: nat, args: Args)
    requires i <= |fmt| && CharAt(fmt, i) == '\0'
    ensures Format(fmt[i..], args) == ""
  {
  }

  lemma FormatChar(fmt: Text, i: nat, args: Args)
    requires i < |fmt| && fmt[i] != '%' && fmt[i] != '\0'
    ensures Format(fmt[i..], args) == [fmt[i]] + Format(fmt[i + 1..], args)
  {
  }

  lemma FormatConversion(fmt: Text, i: nat, args: Args, d: Directive, j: nat, left: Args)
    requires i < |fmt| && fmt[i] == '%' && i < j <= |fmt|
    requires ReadDirective(fmt[i + 1..], args) == Reading(d, fmt[j..], left)
    ensures var c := CharAt(fmt, j);
      if IsConversion(c) then j < |fmt|
          && Format(fmt[i..], args) == Converted(d, c, left) + Format(fmt[j + 1..], left.Rest())
      else Format(fmt[i..], args) == [c] + Format(fmt[j..], left)
  {
  }

  // A buffer size taken as a signed number.
  function Capacity(size: int): int {
    if size > INT_MAX then size - UINT32 else size
  }

  lemma KeptSigned(n: nat, size: nat)
    requires size < UINT32
    ensures Kept(n, Capacity(size)) == if size > INT_MAX || size == 0 then 0 else if n < size then n else size - 1
  {
  }

  /** vsnprintf keeps the first size - 1 characters of the whole output, ends them with NUL, touches
      nothing behind that, and returns the whole output's length. A size that is negative as a
      signed number keeps nothing. Size zero prints to the console. */
  method Vsnprintf(console: Console, str: array<char>, size: nat, fmt: Text, args: Args) returns (length: int)
    requires size < UINT32 && size <= str.Length
    modifies console, str
    ensures length == |Format(fmt, args)|
    ensures size > 0 ==>
      var text := Format(fmt, args);
      var n := if size > INT_MAX then 0 else if |text| < size then |text| else size - 1;
        && str[..n] == text[..n] && str[n] == '\0' && str[n + 1..] == old(str[n + 1..])
        && console.text == old(console.text)
    ensures size == 0 ==> console.text == old(console.text) + Format(fmt, args) && str[..] == old(str[..])
  {
    hide Format, Kept, Capacity;
    ghost var text := Format(fmt, args);
    KeptSigned(|text|, size);
    if size == 0 {
      var ctx := new Context(console, false, str, 0, |text|);
      Vprintf(ctx, fmt, args);
      return ctx.total;
    }
    var ctx := new Context(console, true, str, Capacity(size), |text|);
    Vprintf(ctx, fmt, args);
    str[ctx.out] := '\0';
    return ctx.total;
  }

  /** sprintf, with room for the whole output and its NUL. */
  method Sprintf(console: Console, str: array<char>, fmt: Text, args: Args) returns (length: int)
    requires |Format(fmt, args)| < str.Length && |Format(fmt, args)| < INT_MAX
    modifies console, str
    ensures length == |Format(fmt, args)|
    ensures str[..length] == Format(fmt, args) && str[length] == '\0' && str[length + 1..] == old(str[length + 1..])
    ensures console.text == old(console.text)
  {
    hide Format;
    ghost var text := Format(fmt, args);
    var ctx := new Context(console, true, str, INT_MAX, |text|);
    Vprintf(ctx, fmt, args);
    str[ctx.out] := '\0';
    return ctx.total;
  }
}
