/** Numbers as text in base 10 and 16, as the formatting engine writes them and the parsers read them. */
module Digits {

  type Text = seq<char>

  function Digit(d: int, upper: bool): (c: char)
    requires 0 <= d < 16
  {
    if d < 10 then ('0' as int + d) as char
    else if upper then ('A' as int + (d - 10)) as char
    else ('a' as int + (d - 10)) as char
  }

  predicate IsHex(c: char) {
    '0' <= c <= '9' || 'a' <= c <= 'f' || 'A' <= c <= 'F'
  }

  function Nibble(c: char): (d: int)
    requires IsHex(c)
    ensures 0 <= d < 16
  {
    if c <= '9' then c as int - '0' as int
    else if c <= 'F' then c as int - 'A' as int + 10
    else c as int - 'a' as int + 10
  }

  // The same as the parsers compute it: the letters of both cases meet in the lower one, and digits
  // are told apart first.
  function NibbleOf(d: char): int {
    if d > '9' then (if 'A' <= d <= 'F' then d as int + 32 else d as int) - 'a' as int + 10 else d as int - '0' as int
  }

  lemma NibbleAgrees(d: char)
    requires IsHex(d)
    ensures NibbleOf(d) == Nibble(d)
  {
  }

  predicate AllHex(t: Text) {
    forall c :: c in t ==> IsHex(c)
  }

  // All digits are digits of the base.
  predicate InBase(t: Text, base: int) {
    forall c :: c in t ==> IsHex(c) && Nibble(c) < base
  }

  // The text of a number, without leading zeros.
  function Numeral(n: int, base: int, upper: bool): (t: Text)
    requires 0 <= n && 2 <= base <= 16
    ensures t != []
    decreases n
  {
    if n < base then [Digit(n, upper)] else Numeral(n / base, base, upper) + [Digit(n % base, upper)]
  }

  // The number a text stands for.
  function Value(t: Text, base: int): (n: int)
    requires 2 <= base <= 16 && AllHex(t)
    ensures 0 <= n
    decreases |t|
  {
    if t == [] then 0 else Value(t[..|t| - 1], base) * base + Nibble(t[|t| - 1])
  }

  function Repeat(n: int, c: char): (t: Text)
    ensures |t| == if n < 0 then 0 else n
    ensures forall i :: 0 <= i < |t| ==> t[i] == c
  {
    if n < 0 then [] else seq(n, _ => c)
  }

  // A text filled up on the left.
  function PadLeft(t: Text, n: int, fill: char): (r: Text)
    ensures |r| == if |t| < n then n else |t|
  {
    Repeat(n - |t|, fill) + t
  }

  function Power(base: int, k: nat): (p: int)
    requires 2 <= base
    ensures 0 < p
    decreases k
  {
    if k == 0 then 1 else base * Power(base, k - 1)
  }

  // The digits are the usual ones.
  lemma DigitIs(d: int, upper: bool)
    requires 0 <= d < 16
    ensures Digit(d, upper) == if upper then "0123456789ABCDEF"[d] else "0123456789abcdef"[d]
  {
  }

  // ... and are read as such, in either case, and nothing else is.
  lemma NibbleIs(c: char)
    ensures IsHex(c) <==> exists d :: 0 <= d < 16 && (c == "0123456789abcdef"[d] || c == "0123456789ABCDEF"[d])
    ensures IsHex(c) ==> c == "0123456789abcdef"[Nibble(c)] || c == "0123456789ABCDEF"[Nibble(c)]
  {
    if IsHex(c) {
      assert c == "0123456789abcdef"[Nibble(c)] || c == "0123456789ABCDEF"[Nibble(c)];
    }
  }

  // All digits are of one case.
  predicate InCase(t: Text, upper: bool) {
    forall c :: c in t ==> !(if upper then 'a' <= c <= 'z' else 'A' <= c <= 'Z')
  }

  lemma {:induction false} NumeralShape(n: int, base: int, upper: bool)
    requires 0 <= n && 2 <= base <= 16
    ensures InCase(Numeral(n, base, upper), upper)
    ensures n != 0 ==> Numeral(n, base, upper)[0] != '0'
    decreases n
  {
    hide IsHex, Nibble;
    if n >= base {
      FirstQuotient(n, base);
      OneCase(n % base, upper);
      hide Digit;
      NumeralShape(n / base, base, upper);
    } else {
      OneCase(n, upper);
    }
  }

  lemma FirstQuotient(n: int, base: int)
    requires 2 <= base <= n
    ensures 0 < n / base < n
  {
  }

  lemma OneCase(d: int, upper: bool)
    requires 0 <= d < 16
    ensures InCase([Digit(d, upper)], upper) && (d != 0 ==> Digit(d, upper) != '0')
  {
  }

  lemma DigitRoundTrip(d: int, upper: bool)
    requires 0 <= d < 16
    ensures IsHex(Digit(d, upper)) && Nibble(Digit(d, upper)) == d
  {
  }

  lemma ValueSnoc(t: Text, c: char, base: int)
    requires 2 <= base <= 16 && IsHex(c) && AllHex(t)
    ensures AllHex(t + [c]) && Value(t + [c], base) == Value(t, base) * base + Nibble(c)
  {
  }

  /** A numeral is made of digits of its base, and reads back as its number. */
  lemma {:induction false} NumeralValue(n: int, base: int, upper: bool)
    requires 0 <= n && 2 <= base <= 16
    ensures InBase(Numeral(n, base, upper), base)
    ensures AllHex(Numeral(n, base, upper)) && Value(Numeral(n, base, upper), base) == n
    decreases n
  {
    hide Digit, IsHex, AllHex, InBase, Nibble, Value;
    if n < base {
      DigitRoundTrip(n, upper);
      SingleValue(Digit(n, upper), base);
    } else {
      var q, d := n / base, n % base;
      Recombined(n, base);
      NumeralValue(q, base, upper);
      DigitValue(Numeral(q, base, upper), d, base, upper);
    }
  }

  lemma DigitValue(t: Text, d: int, base: int, upper: bool)
    requires 2 <= base <= 16 && 0 <= d < base && AllHex(t) && InBase(t, base)
    ensures InBase(t + [Digit(d, upper)], base)
    ensures AllHex(t + [Digit(d, upper)]) && Value(t + [Digit(d, upper)], base) == Value(t, base) * base + d
  {
  }

  lemma Recombined(n: int, base: int)
    requires 0 < base
    ensures n / base * base + n % base == n
  {
  }

  lemma SingleValue(c: char, base: int)
    requires 2 <= base <= 16 && IsHex(c)
    ensures AllHex([c]) && Value([c], base) == Nibble(c)
    ensures InBase([c], base) <==> Nibble(c) < base
  {
  }

  lemma {:induction false} ZerosValue(k: nat, t: Text, base: int)
    requires 2 <= base <= 16 && AllHex(t)
    ensures AllHex(Repeat(k, '0') + t)
    ensures Value(Repeat(k, '0') + t, base) == Value(t, base)
    decreases |t|, k
  {
    hide IsHex, Nibble;
    ZeroDigit();
    var padded := Repeat(k, '0') + t;
    if t != [] {
      ZerosValue(k, t[..|t| - 1], base);
      assert padded[..|padded| - 1] == Repeat(k, '0') + t[..|t| - 1];
    } else if k > 0 {
      ZerosValue(k - 1, t, base);
      assert padded[..|padded| - 1] == Repeat(k - 1, '0') + t;
    }
  }

  lemma ZeroDigit()
    ensures IsHex('0') && Nibble('0') == 0
  {
  }

  lemma {:induction false} NumeralLength(n: int, base: int, upper: bool, k: nat)
    requires 0 <= n && 2 <= base <= 16 && 0 < k
    ensures |Numeral(n, base, upper)| <= k <==> n < Power(base, k)
    decreases k
  {
    if k == 1 {
      assert Power(base, 1) == base * Power(base, 0);
    } else if n >= base {
      NumeralLength(n / base, base, upper, k - 1);
      DivideBound(n, base, Power(base, k - 1));
    } else {
      PowerGrows(base, k);
    }
  }

  lemma DivideBound(n: int, base: int, p: int)
    requires 0 <= n && 2 <= base && 0 < p
    ensures n / base < p <==> n < base * p
  {
    var q, r := n / base, n % base;
    assert n == base * q + r;
    if q < p {
      assert base * (q + 1) <= base * p;
    } else {
      assert base * p <= base * q;
    }
  }

  lemma {:induction false} PowerGrows(base: int, k: nat)
    requires 2 <= base && 0 < k
    ensures base <= Power(base, k)
    decreases k
  {
  }
}
