/** UUID text: lib-clib/src/uuid_unparse.cpp prints sixteen bytes through the formatting engine, and
    lib-clib/src/uuid_parse.cpp reads them back (section 4 of RFC 9562). */
module Uuid {

  import opened Digits
  import opened Machine
  import P = Printf

  type Bytes = seq<Octet>

  const SIZE: nat := 16
  const TEXT_LENGTH: nat := 36

  // The two formats, lower case and upper case, piece by piece.
  const FORMAT_LOWER: Text :=
    "%08x-" + ("%04x-" + ("%04x-"
        + ("%02x" + ("%02x-" + ("%02x" + ("%02x" + ("%02x" + ("%02x" + ("%02x" + "%02x")))))))))
  const FORMAT_UPPER: Text :=
    "%08X-" + ("%04X-" + ("%04X-"
        + ("%02X" + ("%02X-" + ("%02X" + ("%02X" + ("%02X" + ("%02X" + ("%02X" + "%02X")))))))))

  /* ---- Bytes and their hex text ---- */

  function HexOf(bytes: Bytes, upper: bool): (t: Text)
    ensures |t| == 2 * |bytes|
  {
    seq(2 * |bytes|, i requires 0 <= i < 2 * |bytes| =>
      Digit(if i % 2 == 0 then bytes[i / 2] / 16 else bytes[i / 2] % 16, upper))
  }

  function BytesOf(t: Text): (bytes: Bytes)
    requires |t| % 2 == 0 && AllHex(t)
    ensures |bytes| == |t| / 2
  {
    seq(|t| / 2, k requires 0 <= k < |t| / 2 => 16 * Nibble(t[2 * k]) + Nibble(t[2 * k + 1]))
  }

  function Hyphenated(t: Text): (s: Text)
    requires |t| == 32
    ensures |s| == TEXT_LENGTH
  {
    t[..8] + "-" + t[8..12] + "-" + t[12..16] + "-" + t[16..20] + "-" + t[20..]
  }

  function Plain(s: Text): (t: Text)
    requires |s| == TEXT_LENGTH
    ensures |t| == 32
  {
    s[..8] + s[9..13] + s[14..18] + s[19..23] + s[24..]
  }

  predicate IsHyphen(i: int) {
    i == 8 || i == 13 || i == 18 || i == 23
  }

  // The texts uuid_parse takes.
  predicate Accepted(s: Text) {
    |s| == TEXT_LENGTH && forall i :: 0 <= i < TEXT_LENGTH ==> if IsHyphen(i) then s[i] == '-' else IsHex(s[i])
  }

  lemma PlainHex(s: Text)
    requires Accepted(s)
    ensures AllHex(Plain(s))
  {
    hide IsHex;
    var t := Plain(s);
    forall i | 0 <= i < 32
      ensures IsHex(t[i])
    {
      var at := if i < 8 then i else if i < 12 then i + 1 else if i < 16 then i + 2 else if i < 20 then i + 3
          else i + 4;
      assert t[i] == s[at] && !IsHyphen(at);
    }
  }

  // What uuid_parse makes of a text.
  function Parsed(s: Text): (r: Option<Bytes>)
    ensures r.Some? ==> |r.value| == SIZE
  {
    if Accepted(s) then
      PlainHex(s);
      Some(BytesOf(Plain(s)))
    else
      None
  }

  function Unparsed(u: Bytes, upper: bool): (s: Text)
    requires |u| == SIZE
    ensures |s| == TEXT_LENGTH
  {
    Hyphenated(HexOf(u, upper))
  }

  function LowerCase(t: Text): (r: Text)
    ensures |r| == |t|
  {
    seq(|t|, i requires 0 <= i < |t| => if 'A' <= t[i] <= 'Z' then (t[i] as int + 32) as char else t[i])
  }

  /* ---- The two round trips ---- */

  lemma HexOfHex(bytes: Bytes, upper: bool)
    ensures AllHex(HexOf(bytes, upper))
  {
    hide IsHex, Digit;
    forall i | 0 <= i < 2 * |bytes|
      ensures IsHex(HexOf(bytes, upper)[i])
    {
      DigitRoundTrip(if i % 2 == 0 then bytes[i / 2] / 16 else bytes[i / 2] % 16, upper);
    }
  }

  lemma BytesOfHexOf(bytes: Bytes, upper: bool)
    ensures AllHex(HexOf(bytes, upper)) && BytesOf(HexOf(bytes, upper)) == bytes
  {
    hide IsHex, Digit, Nibble;
    HexOfHex(bytes, upper);
    var t := HexOf(bytes, upper);
    forall k | 0 <= k < |bytes|
      ensures BytesOf(t)[k] == bytes[k]
    {
      DigitRoundTrip(bytes[k] / 16, upper);
      DigitRoundTrip(bytes[k] % 16, upper);
    }
  }

  lemma DigitOfNibble(c: char)
    requires IsHex(c)
    ensures Digit(Nibble(c), false) == if 'A' <= c <= 'Z' then (c as int + 32) as char else c
  {
  }

  lemma HexOfBytesOf(t: Text)
    requires |t| % 2 == 0 && AllHex(t)
    ensures HexOf(BytesOf(t), false) == LowerCase(t)
  {
    hide IsHex, Digit, Nibble;
    var bytes := BytesOf(t);
    forall i | 0 <= i < |t|
      ensures HexOf(bytes, false)[i] == LowerCase(t)[i]
    {
      DigitOfNibble(t[i]);
      var k := i / 2;
      var high, low := Nibble(t[2 * k]), Nibble(t[2 * k + 1]);
      assert bytes[k] / 16 == high && bytes[k] % 16 == low;
    }
  }

  lemma PlainHyphenated(t: Text)
    requires |t| == 32
    ensures Plain(Hyphenated(t)) == t
  {
    var s := Hyphenated(t);
    assert s[..8] == t[..8] && s[9..13] == t[8..12] && s[14..18] == t[12..16];
    assert s[19..23] == t[16..20] && s[24..] == t[20..];
    assert t == t[..8] + t[8..12] + t[12..16] + t[16..20] + t[20..];
  }

  lemma HyphenatedPlain(s: Text)
    requires |s| == TEXT_LENGTH && forall i :: 0 <= i < TEXT_LENGTH && IsHyphen(i) ==> s[i] == '-'
    ensures Hyphenated(Plain(s)) == s
  {
    var t := Plain(s);
    assert IsHyphen(8) && IsHyphen(13) && IsHyphen(18) && IsHyphen(23);
    assert t[..8] == s[..8] && t[8..12] == s[9..13] && t[12..16] == s[14..18];
    assert t[16..20] == s[19..23] && t[20..] == s[24..];
    assert s == s[..8] + "-" + s[9..13] + "-" + s[14..18] + "-" + s[19..23] + "-" + s[24..];
  }

  lemma LowerPlain(s: Text)
    requires |s| == TEXT_LENGTH
    ensures LowerCase(Plain(s)) == Plain(LowerCase(s))
  {
    forall i | 0 <= i < 32
      ensures LowerCase(Plain(s))[i] == Plain(LowerCase(s))[i]
    {
    }
  }

  lemma HyphenatedAccepted(t: Text)
    requires |t| == 32 && AllHex(t)
    ensures Accepted(Hyphenated(t)) && Plain(Hyphenated(t)) == t
  {
    hide IsHex;
    PlainHyphenated(t);
    var s := Hyphenated(t);
    forall i | 0 <= i < TEXT_LENGTH
      ensures if IsHyphen(i) then s[i] == '-' else IsHex(s[i])
    {
      if !IsHyphen(i) {
        var at := if i < 8 then i else if i < 13 then i - 1 else if i < 18 then i - 2 else if i < 23 then i - 3
            else i - 4;
        assert s[i] == t[at];
      }
    }
  }

  /** Every UUID comes back from its text, in either case. */
  lemma ParsedUnparsed(u: Bytes, upper: bool)
    requires |u| == SIZE
    ensures Parsed(Unparsed(u, upper)) == Some(u)
  {
    hide IsHex;
    BytesOfHexOf(u, upper);
    HyphenatedAccepted(HexOf(u, upper));
  }

  /** The text has the two digits of byte number k behind those of the bytes before it and the hyphens that stand
      behind the fourth, sixth, eighth and tenth byte. */
  lemma UnparsedText(u: Bytes, upper: bool)
    requires |u| == SIZE
    ensures var s, digits := Unparsed(u, upper), if upper then "0123456789ABCDEF" else "0123456789abcdef";
            && |s| == 36 && s[8] == s[13] == s[18] == s[23] == '-'
            && forall k :: 0 <= k < 16 ==>
                 var at := 2 * k + (if k < 4 then 0 else if k < 6 then 1 else if k < 8 then 2 else if k < 10 then 3
                                    else 4);
                 s[at] == digits[u[k] / 16] && s[at + 1] == digits[u[k] % 16]
  {
    hide HexOf, Hyphenated;
    Hyphens(HexOf(u, upper));
    forall k | 0 <= k < 16
      ensures var at := PlaceOf(k);
              Unparsed(u, upper)[at] == Digit(u[k] / 16, upper) && Unparsed(u, upper)[at + 1] == Digit(u[k] % 16, upper)
    {
      HexPair(u, k, upper);
      Behind(HexOf(u, upper), k);
    }
    forall d | 0 <= d < 16
      ensures Digit(d, upper) == if upper then "0123456789ABCDEF"[d] else "0123456789abcdef"[d]
    {
      DigitIs(d, upper);
    }
    hide Digit;
  }

  // Where a byte's two digits begin.
  function PlaceOf(k: nat): nat {
    2 * k + (if k < 4 then 0 else if k < 6 then 1 else if k < 8 then 2 else if k < 10 then 3 else 4)
  }

  lemma HexPair(bytes: Bytes, k: nat, upper: bool)
    requires k < |bytes|
    ensures HexOf(bytes, upper)[2 * k] == Digit(bytes[k] / 16, upper)
    ensures HexOf(bytes, upper)[2 * k + 1] == Digit(bytes[k] % 16, upper)
  {
    hide Digit;
  }

  lemma Hyphens(t: Text)
    requires |t| == 32
    ensures var s := Hyphenated(t); s[8] == s[13] == s[18] == s[23] == '-'
  {
  }

  lemma Behind(t: Text, k: nat)
    requires |t| == 32 && k < 16
    ensures var at := PlaceOf(k);
            Hyphenated(t)[at] == t[2 * k] && Hyphenated(t)[at + 1] == t[2 * k + 1]
  {
  }

  /** Every accepted text comes back from its UUID in lower case. */
  lemma UnparsedParsed(s: Text)
    requires Accepted(s)
    ensures Unparsed(Parsed(s).value, false) == LowerCase(s)
  {
    hide IsHex, Hyphenated, Plain;
    PlainHex(s);
    HexOfBytesOf(Plain(s));
    LowerPlain(s);
    HyphenatedPlain(LowerCase(s));
  }

  /* ---- Printing ---- */

  function BigEndian(bytes: Bytes): (n: int)
    ensures 0 <= n
    decreases |bytes|
  {
    if bytes == [] then 0 else BigEndian(bytes[..|bytes| - 1]) * 256 + bytes[|bytes| - 1]
  }

  // The last w hex digits of a number.
  function FixedHex(n: int, w: nat, upper: bool): (t: Text)
    requires 0 <= n
    ensures |t| == w
    decreases w
  {
    if w == 0 then "" else FixedHex(n / 16, w - 1, upper) + [Digit(n % 16, upper)]
  }

  lemma {:induction false} PaddedNumeral(n: int, w: nat, upper: bool)
    requires 0 < w && 0 <= n < Power(16, w)
    ensures |Numeral(n, 16, upper)| <= w
    ensures Repeat(w - |Numeral(n, 16, upper)|, '0') + Numeral(n, 16, upper) == FixedHex(n, w, upper)
    decreases w
  {
    hide Digit;
    NumeralLength(n, 16, upper, w);
    if w == 1 {
      SingleDigit(n, upper);
    } else {
      DivideBound(n, 16, Power(16, w - 1));
      PaddedNumeral(n / 16, w - 1, upper);
      if n < 16 {
        ZeroPadding(w, upper);
      }
    }
  }

  lemma SingleDigit(n: int, upper: bool)
    requires 0 <= n < Power(16, 1)
    ensures Numeral(n, 16, upper) == [Digit(n, upper)] && FixedHex(n, 1, upper) == [Digit(n, upper)]
  {
    assert Power(16, 1) == 16 * Power(16, 0);
    assert FixedHex(n / 16, 0, upper) == "";
  }

  lemma ZeroPadding(w: nat, upper: bool)
    requires 1 < w
    ensures Repeat(w - 1 - |Numeral(0, 16, upper)|, '0') + Numeral(0, 16, upper) == Repeat(w - 1, '0')
  {
    assert Numeral(0, 16, upper) == "0";
  }

  lemma {:induction false} FixedHexBytes(bytes: Bytes, upper: bool)
    ensures FixedHex(BigEndian(bytes), 2 * |bytes|, upper) == HexOf(bytes, upper)
    decreases |bytes|
  {
    hide Digit;
    if bytes != [] {
      var front, b := bytes[..|bytes| - 1], bytes[|bytes| - 1];
      FixedHexBytes(front, upper);
      var n := BigEndian(bytes);
      assert n % 16 == b % 16 && n / 16 == BigEndian(front) * 16 + b / 16;
      assert n / 16 % 16 == b / 16 && n / 16 / 16 == BigEndian(front);
      assert HexOf(bytes, upper) == HexOf(front, upper) + [Digit(b / 16, upper)] + [Digit(b % 16, upper)];
    }
  }

  lemma {:induction false} BigEndianBound(bytes: Bytes)
    ensures BigEndian(bytes) < Power(16, 2 * |bytes|)
    decreases |bytes|
  {
    if bytes != [] {
      var k := |bytes| - 1;
      BigEndianBound(bytes[..k]);
      assert Power(16, 2 * |bytes|) == 16 * Power(16, 2 * k + 1);
      assert Power(16, 2 * k + 1) == 16 * Power(16, 2 * k);
    }
  }

  // A conversion such as %08x, whatever follows it.
  lemma HexStep(w: char, x: char, rest: Text, args: P.Args)
    requires '1' <= w <= '8' && (x == 'x' || x == 'X')
    ensures P.Format(['%', '0', w, x] + rest, args)
         == P.HexText(P.Directive(true, false, w as int - '0' as int, false, 0), args.Head(), x == 'X')
             + P.Format(rest, args.Rest())
  {
    hide P.HexText;
    var tail := ['0', w, x] + rest;
    assert (['%', '0', w, x] + rest)[1..] == tail;
    assert tail[1..] == [w, x] + rest && tail[1..][1..] == [x] + rest && ([x] + rest)[1..] == rest;
    assert P.Number([w, x] + rest, 0) == P.Number([x] + rest, w as int - '0' as int);
    assert P.ReadDirective(tail, args)
        == P.Reading(P.Directive(true, false, w as int - '0' as int, false, 0), [x] + rest, args);
  }

  lemma DashStep(rest: Text, args: P.Args)
    ensures P.Format("-" + rest, args) == "-" + P.Format(rest, args)
  {
    assert ("-" + rest)[1..] == rest;
  }

  // A conversion of that form prints the bytes the argument is made of.
  lemma HexPiece(w: nat, bytes: Bytes, upper: bool)
    requires w == 2 * |bytes| && 0 < w <= 8
    ensures P.HexText(P.Directive(true, false, w, false, 0), BigEndian(bytes), upper) == HexOf(bytes, upper)
  {
    hide Numeral, Power, P.Field, BigEndian, HexOf, FixedHex, Digit;
    var n := BigEndian(bytes);
    BigEndianBound(bytes);
    PaddedNumeral(n, w, upper);
    P.NoSign(P.Directive(true, false, w, false, 0), Numeral(n, 16, upper));
    FixedHexBytes(bytes, upper);
  }

  // A format made of such conversions, some with a hyphen behind them, and what it prints.
  datatype Piece = Piece(width: char, hyphen: bool)

  function Dash(piece: Piece): Text {
    if piece.hyphen then "-" else ""
  }

  function PiecesFormat(pieces: seq<Piece>, x: char): Text
    decreases |pieces|
  {
    if pieces == [] then ""
    else ['%', '0', pieces[0].width, x] + (Dash(pieces[0]) + PiecesFormat(pieces[1..], x))
  }

  function PiecesText(pieces: seq<Piece>, parts: seq<Bytes>, upper: bool): Text
    requires |pieces| == |parts|
    decreases |pieces|
  {
    if pieces == [] then ""
    else HexOf(parts[0], upper) + (Dash(pieces[0]) + PiecesText(pieces[1..], parts[1..], upper))
  }

  predicate Fits(piece: Piece, part: Bytes) {
    '1' <= piece.width <= '8' && piece.width as int - '0' as int == 2 * |part|
  }

  lemma {:induction false} FormatPieces(pieces: seq<Piece>, parts: seq<Bytes>, x: char, args: P.Args)
    requires |pieces| == |parts| && (x == 'x' || x == 'X')
    requires forall i: nat :: i < |parts| ==>
               Fits(pieces[i], parts[i]) && args.words(args.next + i) == BigEndian(parts[i])
    ensures P.Format(PiecesFormat(pieces, x), args) == PiecesText(pieces, parts, x == 'X')
    decreases |pieces|
  {
    hide P.Format, P.HexText, HexOf, BigEndian;
    if pieces == [] {
      EmptyFormat(args);
    } else {
      var rest := PiecesFormat(pieces[1..], x);
      assert Fits(pieces[0], parts[0]) && args.words(args.next + 0) == BigEndian(parts[0]);
      HexStep(pieces[0].width, x, Dash(pieces[0]) + rest, args);
      HexPiece(2 * |parts[0]|, parts[0], x == 'X');
      forall i: nat | i < |parts[1..]|
        ensures Fits(pieces[1..][i], parts[1..][i])
                && args.Rest().words(args.Rest().next + i) == BigEndian(parts[1..][i])
      {
        assert Fits(pieces[i + 1], parts[i + 1]) && args.words(args.next + (i + 1)) == BigEndian(parts[i + 1]);
      }
      FormatPieces(pieces[1..], parts[1..], x, args.Rest());
      if pieces[0].hyphen {
        DashStep(rest, args.Rest());
      } else {
        assert "" + rest == rest;
      }
    }
  }

  lemma EmptyFormat(args: P.Args)
    ensures P.Format("", args) == ""
  {
  }

  const WORD_HYPHEN := Piece('4', true)
  const BYTE := Piece('2', false)
  const BYTE_HYPHEN := Piece('2', true)

  const PIECES: seq<Piece> :=
    [Piece('8', true), WORD_HYPHEN, WORD_HYPHEN, BYTE, BYTE_HYPHEN, BYTE, BYTE, BYTE, BYTE, BYTE, BYTE]

  lemma PieceFrom(k: nat, text: Text, rest: Text, x: char)
    requires k < |PIECES| && text == ['%', '0', PIECES[k].width, x] + Dash(PIECES[k])
    requires PiecesFormat(PIECES[k + 1..], x) == rest
    ensures PiecesFormat(PIECES[k..], x) == text + rest
  {
    hide Dash;
    var pieces := PIECES[k..];
    assert pieces[0] == PIECES[k] && pieces[1..] == PIECES[k + 1..];
  }

  lemma LastPiece(x: char)
    ensures PiecesFormat(PIECES[10..], x) == ['%', '0', '2', x]
  {
    assert PIECES[10..] == [BYTE];
    assert PiecesFormat([BYTE][1..], x) == "";
  }

  lemma LowerFormat()
    ensures PiecesFormat(PIECES[0..], 'x') == FORMAT_LOWER
  {
    hide PiecesFormat;
    LastPiece('x');
    var f10 := "%02x";
    var f9 := "%02x" + f10;
    PieceFrom(9, "%02x", f10, 'x');
    var f8 := "%02x" + f9;
    PieceFrom(8, "%02x", f9, 'x');
    var f7 := "%02x" + f8;
    PieceFrom(7, "%02x", f8, 'x');
    var f6 := "%02x" + f7;
    PieceFrom(6, "%02x", f7, 'x');
    var f5 := "%02x" + f6;
    PieceFrom(5, "%02x", f6, 'x');
    var f4 := "%02x-" + f5;
    PieceFrom(4, "%02x-", f5, 'x');
    var f3 := "%02x" + f4;
    PieceFrom(3, "%02x", f4, 'x');
    var f2 := "%04x-" + f3;
    PieceFrom(2, "%04x-", f3, 'x');
    var f1 := "%04x-" + f2;
    PieceFrom(1, "%04x-", f2, 'x');
    var f0 := "%08x-" + f1;
    PieceFrom(0, "%08x-", f1, 'x');
  }

  lemma UpperFormat()
    ensures PiecesFormat(PIECES[0..], 'X') == FORMAT_UPPER
  {
    hide PiecesFormat;
    LastPiece('X');
    var f10 := "%02X";
    var f9 := "%02X" + f10;
    PieceFrom(9, "%02X", f10, 'X');
    var f8 := "%02X" + f9;
    PieceFrom(8, "%02X", f9, 'X');
    var f7 := "%02X" + f8;
    PieceFrom(7, "%02X", f8, 'X');
    var f6 := "%02X" + f7;
    PieceFrom(6, "%02X", f7, 'X');
    var f5 := "%02X" + f6;
    PieceFrom(5, "%02X", f6, 'X');
    var f4 := "%02X-" + f5;
    PieceFrom(4, "%02X-", f5, 'X');
    var f3 := "%02X" + f4;
    PieceFrom(3, "%02X", f4, 'X');
    var f2 := "%04X-" + f3;
    PieceFrom(2, "%04X-", f3, 'X');
    var f1 := "%04X-" + f2;
    PieceFrom(1, "%04X-", f2, 'X');
    var f0 := "%08X-" + f1;
    PieceFrom(0, "%08X-", f1, 'X');
  }

  // The bytes behind each conversion.
  function Parts(u: Bytes): (parts: seq<Bytes>)
    requires |u| == SIZE
    ensures |parts| == |PIECES|
  {
    [u[0..4], u[4..6], u[6..8], u[8..9], u[9..10], u[10..11], u[11..12], u[12..13], u[13..14], u[14..15], u[15..16]]
  }

  lemma PartsFit(u: Bytes)
    requires |u| == SIZE
    ensures forall k: nat :: k < |PIECES| ==> Fits(PIECES[k], Parts(u)[k])
  {
  }

  lemma HexSlice(u: Bytes, lo: nat, hi: nat, upper: bool)
    requires lo <= hi <= |u|
    ensures HexOf(u[lo..hi], upper) == HexOf(u, upper)[2 * lo..2 * hi]
  {
    hide Digit;
  }

  lemma TextFrom(k: nat, parts: seq<Bytes>, upper: bool)
    requires k < |PIECES| == |parts|
    ensures PiecesText(PIECES[k..], parts[k..], upper)
         == HexOf(parts[k], upper) + (Dash(PIECES[k]) + PiecesText(PIECES[k + 1..], parts[k + 1..], upper))
  {
    hide HexOf;
    assert PIECES[k..][1..] == PIECES[k + 1..] && parts[k..][1..] == parts[k + 1..];
  }

  // The six bytes of the node follow each other without hyphens.
  lemma {:induction false} NodeText(k: nat, u: Bytes, upper: bool)
    requires |u| == SIZE && 5 <= k <= |PIECES|
    ensures PiecesText(PIECES[k..], Parts(u)[k..], upper) == HexOf(u, upper)[2 * (k + 5)..]
    decreases |PIECES| - k
  {
    hide HexOf, PiecesText;
    if k == |PIECES| {
      NoPieces(upper);
      assert PIECES[k..] == [] && Parts(u)[k..] == [] && HexOf(u, upper)[32..] == "";
    } else {
      TextFrom(k, Parts(u), upper);
      NodePart(k, u);
      HexSlice(u, k + 5, k + 6, upper);
      NodeText(k + 1, u, upper);
      hide Parts, Dash;
      Joined(HexOf(u, upper), 2 * (k + 5));
    }
  }

  lemma Joined(t: Text, at: nat)
    requires at + 2 <= |t|
    ensures t[at..at + 2] + ("" + t[at + 2..]) == t[at..]
  {
  }

  lemma NoPieces(upper: bool)
    ensures PiecesText([], [], upper) == ""
  {
  }

  lemma NodePart(k: nat, u: Bytes)
    requires |u| == SIZE && 5 <= k < |PIECES|
    ensures Parts(u)[k] == u[k + 5..k + 6] && Dash(PIECES[k]) == ""
  {
  }

  lemma PartsText(u: Bytes, upper: bool)
    requires |u| == SIZE
    ensures PiecesText(PIECES[0..], Parts(u)[0..], upper) == Unparsed(u, upper)
  {
    hide HexOf, PiecesText, Hyphenated;
    var parts, t := Parts(u), HexOf(u, upper);
    NodeText(5, u, upper);
    TextFrom(4, parts, upper);
    HexSlice(u, 9, 10, upper);
    TextFrom(3, parts, upper);
    HexSlice(u, 8, 9, upper);
    TextFrom(2, parts, upper);
    HexSlice(u, 6, 8, upper);
    TextFrom(1, parts, upper);
    HexSlice(u, 4, 6, upper);
    TextFrom(0, parts, upper);
    HexSlice(u, 0, 4, upper);
    Assembled(t);
  }

  lemma Assembled(t: Text)
    requires |t| == 32
    ensures t[0..8] + ("-" + (t[8..12]
            + ("-" + (t[12..16] + ("-" + (t[16..18] + ("" + (t[18..20] + ("-" + t[20..])))))))))
         == Hyphenated(t)
  {
    var clock := t[16..18] + ("" + (t[18..20] + ("-" + t[20..])));
    assert clock == t[16..20] + "-" + t[20..];
  }

  /* ---- The code ---- */

  datatype Fields = Fields(timeLow: int, timeMid: int, timeHi: int, clockSeq: int, node: Bytes)

  // The words the format's conversions take, in order.
  function WordsOf(f: Fields): (words: seq<int>)
    requires |f.node| == 6
    ensures |words| == |PIECES|
  {
    [f.timeLow, f.timeMid, f.timeHi, f.clockSeq / 256, f.clockSeq % 256] + f.node
  }

  function ArgsOf(words: seq<int>): P.Args
    requires forall k :: 0 <= k < |words| ==> 0 <= words[k] < UINT32
  {
    P.Args((k: nat) => if k < |words| then words[k] else 0, (w: Word) => "", 0)
  }

  lemma BigEndianSnoc(bytes: Bytes, b: Octet)
    ensures BigEndian(bytes + [b]) == BigEndian(bytes) * 256 + b
  {
    assert (bytes + [b])[..|bytes|] == bytes;
  }

  lemma BigEndianTwo(bytes: Bytes)
    requires |bytes| == 2
    ensures BigEndian(bytes) == (bytes[0] as int) * 256 + bytes[1]
  {
    BigEndianSnoc([], bytes[0]);
    BigEndianSnoc([bytes[0]], bytes[1]);
    assert bytes == [bytes[0]] + [bytes[1]];
    assert [bytes[0]] == [] + [bytes[0]];
  }

  lemma BigEndianFour(bytes: Bytes)
    requires |bytes| == 4
    ensures BigEndian(bytes) == (((bytes[0] as int) * 256 + bytes[1]) * 256 + bytes[2]) * 256 + bytes[3]
  {
    BigEndianTwo(bytes[..2]);
    BigEndianSnoc(bytes[..2], bytes[2]);
    BigEndianSnoc(bytes[..3], bytes[3]);
    assert bytes[..3] == bytes[..2] + [bytes[2]] && bytes == bytes[..3] + [bytes[3]];
  }

  lemma BigEndianOne(bytes: Bytes)
    requires |bytes| == 1
    ensures BigEndian(bytes) == bytes[0]
  {
    assert bytes == [] + [bytes[0]];
    BigEndianSnoc([], bytes[0]);
  }

  // The structure a UUID's bytes stand for.
  function FieldsOf(u: Bytes): (f: Fields)
    requires |u| == SIZE
    ensures |f.node| == 6
  {
    Fields(BigEndian(u[0..4]), BigEndian(u[4..6]), BigEndian(u[6..8]), BigEndian(u[8..10]), u[10..16])
  }

  method UuidUnpack(u: Bytes) returns (f: Fields)
    requires |u| == SIZE
    ensures f == FieldsOf(u)
    ensures f.timeLow == (((u[0] as int) * 0x100 + u[1]) * 0x100 + u[2]) * 0x100 + u[3]
    ensures f.timeMid == (u[4] as int) * 0x100 + u[5] && f.timeHi == (u[6] as int) * 0x100 + u[7]
    ensures f.clockSeq == (u[8] as int) * 0x100 + u[9] && f.node == u[10..16]
  {
    BigEndianFour(u[0..4]);
    BigEndianTwo(u[4..6]);
    BigEndianTwo(u[6..8]);
    BigEndianTwo(u[8..10]);
    hide Wrap, BigEndian;
    var tmp: int := u[0];
    NoWrap(tmp * 256);
    tmp := Wrap(tmp * 256) + u[1];
    NoWrap(tmp * 256);
    tmp := Wrap(tmp * 256) + u[2];
    NoWrap(tmp * 256);
    tmp := Wrap(tmp * 256) + u[3];
    var timeLow := tmp;
    NoWrap((u[4] as int) * 256);
    NoWrap((u[6] as int) * 256);
    NoWrap((u[8] as int) * 256);
    var timeMid := Wrap((u[4] as int) * 256) + u[5];
    var timeHi := Wrap((u[6] as int) * 256) + u[7];
    var clockSeq := Wrap((u[8] as int) * 256) + u[9];
    f := Fields(timeLow, timeMid, timeHi, clockSeq, u[10..16]);
  }

  lemma WordIsPart(u: Bytes, k: nat)
    requires |u| == SIZE && k < |PIECES|
    ensures WordsOf(FieldsOf(u))[k] == BigEndian(Parts(u)[k]) < UINT32
  {
    BigEndianFour(u[0..4]);
    BigEndianTwo(u[4..6]);
    BigEndianTwo(u[6..8]);
    BigEndianTwo(u[8..10]);
    hide BigEndian;
    if k >= 3 {
      BigEndianOne(Parts(u)[k]);
    }
  }

  lemma WordsAreParts(u: Bytes)
    requires |u| == SIZE
    ensures forall k: nat :: k < |PIECES| ==> WordsOf(FieldsOf(u))[k] == BigEndian(Parts(u)[k]) < UINT32
  {
    hide WordsOf, Parts, BigEndian;
    forall k: nat | k < |PIECES|
      ensures WordsOf(FieldsOf(u))[k] == BigEndian(Parts(u)[k]) < UINT32
    {
      WordIsPart(u, k);
    }
  }

  /** The formatting engine, run on a UUID's fields, prints its text. */
  lemma FormatUuid(u: Bytes, upper: bool)
    requires |u| == SIZE
    ensures forall k :: 0 <= k < |PIECES| ==> 0 <= WordsOf(FieldsOf(u))[k] < UINT32
    ensures P.Format(if upper then FORMAT_UPPER else FORMAT_LOWER, ArgsOf(WordsOf(FieldsOf(u)))) == Unparsed(u, upper)
  {
    hide WordsOf, FieldsOf, Parts, BigEndian, P.Format, PiecesFormat, PiecesText, Fits, Unparsed;
    WordsAreParts(u);
    PartsFit(u);
    var args := ArgsOf(WordsOf(FieldsOf(u)));
    var x := if upper then 'X' else 'x';
    assert PIECES[0..] == PIECES && Parts(u)[0..] == Parts(u);
    FormatPieces(PIECES, Parts(u), x, args);
    PartsText(u, upper);
    LowerFormat();
    UpperFormat();
  }

  /** uuid_unparse_lower and uuid_unparse_upper. */
  method UuidUnparse(console: P.Console, u: Bytes, out: array<char>, upper: bool)
    requires |u| == SIZE && TEXT_LENGTH < out.Length
    modifies console, out
    ensures out[..TEXT_LENGTH] == Unparsed(u, upper) && out[TEXT_LENGTH] == '\0'
    ensures out[TEXT_LENGTH + 1..] == old(out[TEXT_LENGTH + 1..]) && console.text == old(console.text)
  {
    hide WordsOf, P.Format, Unparsed;
    var f := UuidUnpack(u);
    FormatUuid(u, upper);
    var args := ArgsOf(WordsOf(f));
    var length := P.Sprintf(console, out, if upper then FORMAT_UPPER else FORMAT_LOWER, args);
  }

  /* ---- Parsing ---- */

  // Where the run of hex digits that starts at an index ends.
  function RunEnd(s: Text, i: nat): (j: nat)
    requires i <= |s|
    ensures i <= j <= |s|
    decreases |s| - i
  {
    if i < |s| && IsHex(s[i]) then RunEnd(s, i + 1) else i
  }

  lemma {:induction false} RunHex(s: Text, i: nat)
    requires i <= |s|
    ensures AllHex(s[i..RunEnd(s, i)])
    decreases |s| - i
  {
    hide IsHex;
    if i < |s| && IsHex(s[i]) {
      RunHex(s, i + 1);
      assert s[i..RunEnd(s, i)] == [s[i]] + s[i + 1..RunEnd(s, i)];
    }
  }

  lemma {:induction false} RunEndIs(s: Text, i: nat, j: nat)
    requires i <= j <= |s| && AllHex(s[i..j]) && (j < |s| ==> !IsHex(s[j]))
    ensures RunEnd(s, i) == j
    decreases j - i
  {
    hide IsHex;
    if i < j {
      assert s[i] == s[i..j][0];
      assert s[i + 1..j] == s[i..j][1..];
      RunEndIs(s, i + 1, j);
    }
  }

  lemma HexValueSnoc(s: Text, i: nat, j: nat)
    requires i <= j < |s| && AllHex(s[i..j]) && IsHex(s[j])
    ensures AllHex(s[i..j + 1]) && Value(s[i..j + 1], 16) == Value(s[i..j], 16) * 16 + Nibble(s[j])
  {
    hide IsHex, Nibble;
    assert s[i..j + 1] == s[i..j] + [s[j]];
    assert s[i..j + 1][..j - i] == s[i..j];
  }

  method HexUint32(s: Text, i: nat) returns (value: int)
    requires i <= |s|
    ensures AllHex(s[i..RunEnd(s, i)]) && value == Wrap(Value(s[i..RunEnd(s, i)], 16))
  {
    hide Nibble, NibbleOf, IsHex, Value, Wrap;
    RunHex(s, i);
    var j := i;
    value := 0;
    EmptyValue();
    assert s[i..i] == "";
    while j < |s| && IsHex(s[j])
      invariant i <= j <= |s| && RunEnd(s, i) == RunEnd(s, j)
      invariant AllHex(s[i..j]) && value == Wrap(Value(s[i..j], 16))
      decreases |s| - j
    {
      NibbleAgrees(s[j]);
      HexValueSnoc(s, i, j);
      ShiftWraps(Value(s[i..j], 16), Nibble(s[j]));
      value := Wrap(value * 16) + NibbleOf(s[j]);
      j := j + 1;
    }
  }

  lemma EmptyValue()
    ensures Value("", 16) == 0 && Wrap(0) == 0
  {
  }

  lemma ShiftWraps(n: int, nibble: int)
    requires 0 <= n && 0 <= nibble < 16
    ensures Wrap(Wrap(n) * 16) + nibble == Wrap(n * 16 + nibble)
  {
    var q, r := n / UINT32, n % UINT32;
    var wrapped, rest := r * 16 / UINT32, r * 16 % UINT32;
    assert rest == 16 * (r - UINT32 / 16 * wrapped);
    assert n * 16 + nibble == UINT32 * (16 * q + wrapped) + (rest + nibble);
    Unique(n * 16 + nibble, UINT32, 16 * q + wrapped, rest + nibble);
  }

  lemma {:induction false} HexValueOfBytes(t: Text)
    requires |t| % 2 == 0 && AllHex(t)
    ensures Value(t, 16) == BigEndian(BytesOf(t))
    decreases |t|
  {
    hide IsHex, Nibble;
    if t != [] {
      var k := |t| - 2;
      var front := t[..k];
      HexValueOfBytes(front);
      assert t[..|t| - 1][..k] == front;
      assert BytesOf(t) == BytesOf(front) + [16 * Nibble(t[k]) + Nibble(t[k + 1])];
      BigEndianSnoc(BytesOf(front), 16 * Nibble(t[k]) + Nibble(t[k + 1]));
    }
  }

  // A group of an accepted text: hex digits up to a hyphen or the end.
  lemma GroupHex(s: Text, i: nat, j: nat)
    requires Accepted(s) && i <= j <= TEXT_LENGTH && forall k :: i <= k < j ==> !IsHyphen(k)
    ensures AllHex(s[i..j])
  {
    hide IsHex;
    forall k | 0 <= k < j - i
      ensures IsHex(s[i..j][k])
    {
      assert !IsHyphen(i + k);
    }
  }

  lemma HyphenIsNotHex()
    ensures !IsHex('-')
  {
  }

  lemma {:induction false} BigEndianSmall(bytes: Bytes)
    requires |bytes| <= 4
    ensures BigEndian(bytes) < UINT32
    decreases |bytes|
  {
    BigEndianBound(bytes);
    PowerMonotone(16, 2 * |bytes|, 8);
    assert Power(16, 4) == 0x1_0000;
  }

  lemma {:induction false} PowerMonotone(base: int, a: nat, b: nat)
    requires 2 <= base && a <= b
    ensures Power(base, a) <= Power(base, b)
    decreases b
  {
    if a < b {
      PowerMonotone(base, a, b - 1);
    }
  }

  method ReadGroup(s: Text, i: nat, ghost j: nat) returns (value: int)
    requires Accepted(s) && i <= j <= TEXT_LENGTH && j - i <= 8 && (j - i) % 2 == 0
    requires (forall k :: i <= k < j ==> !IsHyphen(k)) && (j == TEXT_LENGTH || IsHyphen(j))
    ensures AllHex(s[i..j]) && value == BigEndian(BytesOf(s[i..j]))
  {
    hide IsHex, Wrap, Value, BigEndian;
    GroupHex(s, i, j);
    HyphenIsNotHex();
    RunEndIs(s, i, j);
    HexValueOfBytes(s[i..j]);
    BigEndianSmall(BytesOf(s[i..j]));
    NoWrap(BigEndian(BytesOf(s[i..j])));
    value := HexUint32(s, i);
  }

  lemma BytesOfSlice(t: Text, lo: nat, hi: nat)
    requires |t| % 2 == 0 && AllHex(t) && lo <= hi && 2 * hi <= |t|
    ensures AllHex(t[2 * lo..2 * hi]) && BytesOf(t)[lo..hi] == BytesOf(t[2 * lo..2 * hi])
  {
    hide IsHex, Nibble;
  }

  // The groups of an accepted text are the parts of the UUID.
  lemma Groups(s: Text)
    requires Accepted(s)
    ensures AllHex(s[0..8]) && AllHex(s[9..13]) && AllHex(s[14..18]) && AllHex(s[19..23]) && AllHex(s[24..])
    ensures var u := Parsed(s).value;
      && u[0..4] == BytesOf(s[0..8]) && u[4..6] == BytesOf(s[9..13]) && u[6..8] == BytesOf(s[14..18])
      && u[8..10] == BytesOf(s[19..23]) && u[10..16] == BytesOf(s[24..])
  {
    hide IsHex, BytesOf;
    PlainHex(s);
    var t := Plain(s);
    assert t[0..8] == s[0..8] && t[8..12] == s[9..13] && t[12..16] == s[14..18] && t[16..20] == s[19..23]
           && t[20..32] == s[24..];
    BytesOfSlice(t, 0, 4);
    BytesOfSlice(t, 4, 6);
    BytesOfSlice(t, 6, 8);
    BytesOfSlice(t, 8, 10);
    BytesOfSlice(t, 10, 16);
  }

  method Accept(s: Text) returns (ok: bool)
    requires |s| == TEXT_LENGTH
    ensures ok == Accepted(s)
  {
    hide IsHex;
    var i := 0;
    while i <= TEXT_LENGTH
      invariant 0 <= i <= TEXT_LENGTH + 1
      invariant forall k :: 0 <= k < i && k < TEXT_LENGTH ==> if IsHyphen(k) then s[k] == '-' else IsHex(s[k])
    {
      if i == 8 || i == 13 || i == 18 || i == 23 {
        if s[i] != '-' {
          return false;
        }
      } else if i == TEXT_LENGTH {
        // The NUL that ends the text.
      } else if !IsHex(s[i]) {
        return false;
      }
      i := i + 1;
    }
    return true;
  }

  method ReadNode(s: Text) returns (node: Bytes)
    requires Accepted(s)
    ensures AllHex(s[24..]) && node == BytesOf(s[24..])
  {
    hide IsHex, Nibble, Value, BigEndian;
    GroupHex(s, 24, TEXT_LENGTH);
    assert s[24..TEXT_LENGTH] == s[24..];
    node := [];
    var i := 0;
    while i < 6
      invariant 0 <= i <= 6 && node == BytesOf(s[24..])[..i]
    {
      var buf := [s[24 + 2 * i], s[25 + 2 * i]];
      assert buf == s[24..][2 * i..2 * i + 2];
      assert AllHex(buf);
      RunEndIs(buf, 0, 2);
      assert buf[0..2] == buf;
      HexValueOfBytes(buf);
      BigEndianOne(BytesOf(buf));
      var value := HexUint32(buf, 0);
      node := node + [value % 256];
      i := i + 1;
    }
  }

  lemma LastByte(front: int, b: Octet)
    requires 0 <= front
    ensures (front * 256 + b) % 256 == b && (front * 256 + b) / 256 == front
  {
  }

  lemma FourBytes(bytes: Bytes)
    requires |bytes| == 4
    ensures var n := BigEndian(bytes);
      n % 256 == bytes[3] && n / 256 % 256 == bytes[2] && n / 256 / 256 % 256 == bytes[1]
          && n / 256 / 256 / 256 % 256 == bytes[0]
  {
    hide BigEndian;
    BigEndianFour(bytes);
    var b0: int := bytes[0];
    LastByte((b0 * 256 + bytes[1]) * 256 + bytes[2], bytes[3]);
    LastByte(b0 * 256 + bytes[1], bytes[2]);
    LastByte(b0, bytes[1]);
  }

  lemma TwoBytes(bytes: Bytes)
    requires |bytes| == 2
    ensures var n := BigEndian(bytes); n % 256 == bytes[1] && n / 256 % 256 == bytes[0]
  {
    BigEndianTwo(bytes);
    LastByte(bytes[0], bytes[1]);
  }

  method UuidPack(f: Fields, out: array<Octet>, ghost u: Bytes)
    requires out.Length == SIZE == |u| && f == FieldsOf(u)
    modifies out
    ensures out[..] == u
  {
    hide BigEndian;
    FourBytes(u[0..4]);
    TwoBytes(u[4..6]);
    TwoBytes(u[6..8]);
    TwoBytes(u[8..10]);
    PackLow(f.timeLow, out);
    out[5], out[4] := f.timeMid % 256, f.timeMid / 256 % 256;
    out[7], out[6] := f.timeHi % 256, f.timeHi / 256 % 256;
    out[9], out[8] := f.clockSeq % 256, f.clockSeq / 256 % 256;
    forall k | 0 <= k < 6 {
      out[10 + k] := f.node[k];
    }
  }

  // The first field, byte by byte from the last one.
  method PackLow(timeLow: int, out: array<Octet>)
    requires out.Length == SIZE && 0 <= timeLow
    modifies out
    ensures out[3] == timeLow % 256 && out[2] == timeLow / 256 % 256
    ensures out[1] == timeLow / 256 / 256 % 256 && out[0] == timeLow / 256 / 256 / 256 % 256
  {
    var tmp := timeLow;
    out[3] := tmp % 256;
    tmp := tmp / 256;
    out[2] := tmp % 256;
    tmp := tmp / 256;
    out[1] := tmp % 256;
    tmp := tmp / 256;
    out[0] := tmp % 256;
  }

  /** uuid_parse. */
  method UuidParse(s: Text, uu: array<Octet>) returns (r: int)
    requires uu.Length == SIZE
    modifies uu
    ensures r == if Accepted(s) then 0 else -1
    ensures r == 0 <==>
              |s| == 36 && forall i :: 0 <= i < 36 ==>
                if i == 8 || i == 13 || i == 18 || i == 23 then s[i] == '-'
                else '0' <= s[i] <= '9' || 'a' <= s[i] <= 'f' || 'A' <= s[i] <= 'F'
    ensures uu[..] == if Accepted(s) then Parsed(s).value else old(uu[..])
  {
    if |s| != TEXT_LENGTH {
      return -1;
    }
    var ok := Accept(s);
    if !ok {
      return -1;
    }
    hide Accepted, BytesOf, BigEndian, AllHex;
    Groups(s);
    var timeLow := ReadGroup(s, 0, 8);
    var timeMid := ReadGroup(s, 9, 13);
    var timeHi := ReadGroup(s, 14, 18);
    var clockSeq := ReadGroup(s, 19, 23);
    var node := ReadNode(s);
    UuidPack(Fields(timeLow, timeMid, timeHi, clockSeq, node), uu, Parsed(s).value);
    return 0;
  }

  /** Unparse, then parse: the same sixteen bytes. */
  method RoundTrip(console: P.Console, u: Bytes, upper: bool, text: array<char>, back: array<Octet>) returns (r: int)
    requires |u| == SIZE == back.Length && TEXT_LENGTH < text.Length
    modifies console, text, back
    ensures r == 0 && back[..] == u
  {
    hide Unparsed, Accepted, Parsed;
    UuidUnparse(console, u, text, upper);
    ParsedUnparsed(u, upper);
    AcceptedIsParsed(text[..TEXT_LENGTH]);
    r := UuidParse(text[..TEXT_LENGTH], back);
  }

  lemma AcceptedIsParsed(s: Text)
    ensures Parsed(s).Some? <==> Accepted(s)
  {
  }
}
