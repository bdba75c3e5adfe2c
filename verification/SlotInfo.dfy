/** The text form of DMX slot information: DmxSlotInfo in lib-dmxnode/include/dmxslotinfo.h.

    A slot is written as "TT:CCCC", slots are separated by commas, and a bit mask says which slots
    there are. */
module SlotInfo {

  import opened Digits
  import opened Machine

  const NUL: char := '\0'

  // The characters allocated for a slot; each that is written takes one more.
  const ROOM: nat := 7

  datatype Slot = Slot(kind: Octet, category: Half)

  // What the text is read from; reading is not confined to the text itself.
  type Memory = nat -> char

  datatype Cursor = Null | At(address: nat)

  // What reading one slot gives.
  datatype Item = Invalid | Valid(slot: Slot, rest: Cursor)

  /* ---- What is read ---- */

  function Digits4(m: Memory, p: nat): Text {
    [m(p), m(p + 1), m(p + 2), m(p + 3)]
  }

  // The digits before the separator: a colon ends them, and after two nothing is looked for.
  function KindDigits(m: Memory, p: nat): (t: Text)
    ensures |t| <= 2
  {
    if m(p) == ':' then [] else if m(p + 1) == ':' then [m(p)] else [m(p), m(p + 1)]
  }

  predicate EndsItem(c: char) {
    c == ',' || c == ' ' || c == NUL
  }

  // The value of at most four digits.
  function Number(t: Text): (n: Half)
    requires AllHex(t) && |t| <= 4
  {
    ValueBound(t);
    Value(t, 16)
  }

  lemma {:induction false} ValueBound(t: Text)
    requires AllHex(t)
    ensures Value(t, 16) < Power(16, |t|)
    ensures |t| <= 4 ==> Value(t, 16) < 0x1_0000
    ensures |t| <= 2 ==> Value(t, 16) < 0x100
    decreases |t|
  {
    if t != [] {
      ValueBound(t[..|t| - 1]);
    }
    Powers16();
  }

  lemma Powers16()
    ensures Power(16, 0) == 1 && Power(16, 1) == 16 && Power(16, 2) == 256
    ensures Power(16, 3) == 4096 && Power(16, 4) == 65536
  {
  }

  // The item at p: up to two hex digits, one character that is a colon unless there were two digits,
  // four hex digits, and a separator or the end.
  function Parsed(m: Memory, p: nat): Item {
    var kind := KindDigits(m, p);
    var q := p + |kind| + 1;
    if !AllHex(kind) || !AllHex(Digits4(m, q)) || !EndsItem(m(q + 4)) then Invalid
    else
      ValueBound(kind);
      Valid(Slot(Number(kind), Number(Digits4(m, q))), if m(q + 4) == NUL then Null else At(q + 5))
  }

  // At most n items, up to the first that is invalid.
  function ParsedAll(m: Memory, p: Cursor, n: nat): (slots: seq<Slot>)
    ensures |slots| <= n
    decreases n
  {
    if n == 0 || p == Null then []
    else match Parsed(m, p.address)
         case Invalid => []
         case Valid(slot, rest) => [slot] + ParsedAll(m, rest, n - 1)
  }

  /* ---- Masks ---- */

  // The mask of the first k slots, 2^k - 1.
  function Ones(k: nat): nat {
    if k == 0 then 0 else 2 * Ones(k - 1) + 1
  }

  // The slots a mask selects.
  function Selected(slots: seq<Slot>, mask: nat): (r: seq<Slot>)
    ensures |r| <= |slots|
    decreases |slots|
  {
    if slots == [] then []
    else (if mask % 2 == 1 then [slots[0]] else []) + Selected(slots[1..], mask / 2)
  }

  lemma {:induction false} OnesIsPower(k: nat)
    ensures Ones(k) == Power(2, k) - 1
  {
    if k > 0 {
      OnesIsPower(k - 1);
    }
  }

  /* ---- What is written ---- */

  function ItemText(s: Slot): (t: Text)
    ensures |t| == 7
  {
    [Digit(s.kind / 16, true), Digit(s.kind % 16, true), ':',
     Digit(s.category / 4096, true), Digit(s.category / 256 % 16, true),
     Digit(s.category / 16 % 16, true), Digit(s.category % 16, true)]
  }

  // The items, each with the character behind it: a comma, or a NUL behind the last.
  function Written(slots: seq<Slot>): (t: Text)
    ensures |t| == 8 * |slots|
    decreases |slots|
  {
    if slots == [] then []
    else ItemText(slots[0]) + ([if |slots| == 1 then NUL else ','] + Written(slots[1..]))
  }

  // The whole text, which is a lone NUL when there is no slot.
  function Listing(slots: seq<Slot>): Text {
    if slots == [] then [NUL] else Written(slots)
  }

  ghost predicate HoldsText(m: Memory, p: nat, t: Text) {
    forall i :: 0 <= i < |t| ==> m(p + i) == t[i]
  }

  /* ---- Reading back what was written ---- */

  lemma Value2(a: char, b: char)
    requires IsHex(a) && IsHex(b)
    ensures AllHex([a, b]) && Number([a, b]) == 16 * Nibble(a) + Nibble(b)
  {
    hide IsHex, Nibble;
    SingleValue(a, 16);
    assert [a] + [b] == [a, b];
    ValueSnoc([a], b, 16);
  }

  lemma Value4(a: char, b: char, c: char, d: char)
    requires IsHex(a) && IsHex(b) && IsHex(c) && IsHex(d)
    ensures AllHex([a, b, c, d])
    ensures Number([a, b, c, d]) == 4096 * Nibble(a) + 256 * Nibble(b) + 16 * Nibble(c) + Nibble(d)
  {
    hide IsHex, Nibble;
    Value2(a, b);
    assert [a, b] + [c] == [a, b, c] && [a, b, c] + [d] == [a, b, c, d];
    ValueSnoc([a, b], c, 16);
    ValueSnoc([a, b, c], d, 16);
  }

  lemma KindBack(k: Octet)
    ensures var t := [Digit(k / 16, true), Digit(k % 16, true)];
            AllHex(t) && Number(t) == k && t[0] != ':' && t[1] != ':'
  {
    DigitRoundTrip(k / 16, true);
    DigitRoundTrip(k % 16, true);
    assert forall d :: 0 <= d < 16 ==> Digit(d, true) != ':';
    hide IsHex, Nibble, Digit, Number;
    Value2(Digit(k / 16, true), Digit(k % 16, true));
  }

  lemma NibblesOf(h: Half)
    ensures h == 4096 * (h / 4096) + 256 * (h / 256 % 16) + 16 * (h / 16 % 16) + h % 16
  {
    assert h / 256 == 16 * (h / 4096) + h / 256 % 16;
    assert h / 16 == 16 * (h / 256) + h / 16 % 16;
  }

  lemma CategoryBack(h: Half)
    ensures var t := [Digit(h / 4096, true), Digit(h / 256 % 16, true), Digit(h / 16 % 16, true), Digit(h % 16, true)];
            AllHex(t) && Number(t) == h
  {
    DigitRoundTrip(h / 4096, true);
    DigitRoundTrip(h / 256 % 16, true);
    DigitRoundTrip(h / 16 % 16, true);
    DigitRoundTrip(h % 16, true);
    NibblesOf(h);
    hide IsHex, Nibble, Digit, Number;
    Value4(Digit(h / 4096, true), Digit(h / 256 % 16, true), Digit(h / 16 % 16, true), Digit(h % 16, true));
  }

  lemma ItemParsed(m: Memory, p: nat, s: Slot)
    requires HoldsText(m, p, ItemText(s)) && EndsItem(m(p + 7))
    ensures Parsed(m, p) == Valid(s, if m(p + 7) == NUL then Null else At(p + 8))
  {
    var t := ItemText(s);
    KindBack(s.kind);
    CategoryBack(s.category);
    hide Digit, Number, AllHex;
    assert m(p + 0) == t[0] && m(p + 1) == t[1] && m(p + 2) == t[2];
    assert m(p + 3) == t[3] && m(p + 4) == t[4] && m(p + 5) == t[5] && m(p + 6) == t[6];
    assert KindDigits(m, p) == [t[0], t[1]];
    assert Digits4(m, p + 3) == [t[3], t[4], t[5], t[6]];
  }

  lemma HoldsBoth(m: Memory, p: nat, a: Text, b: Text)
    requires HoldsText(m, p, a + b)
    ensures HoldsText(m, p, a) && HoldsText(m, p + |a|, b)
  {
    forall i | 0 <= i < |a|
      ensures m(p + i) == a[i]
    {
      assert (a + b)[i] == a[i];
    }
    forall i | 0 <= i < |b|
      ensures m(p + |a| + i) == b[i]
    {
      assert m(p + (|a| + i)) == (a + b)[|a| + i];
    }
  }

  lemma HoldsFirst(m: Memory, p: nat, t: Text)
    requires HoldsText(m, p, t) && t != []
    ensures m(p) == t[0]
  {
  }

  lemma NothingParsed(m: Memory, p: nat)
    requires HoldsText(m, p, [NUL])
    ensures Parsed(m, p) == Invalid
  {
    HoldsFirst(m, p, [NUL]);
    assert !IsHex(NUL);
    assert KindDigits(m, p) != [] && KindDigits(m, p)[0] == NUL;
  }

  lemma HoldsItem(m: Memory, p: nat, item: Text, separator: char, rest: Text)
    requires |item| == 7 && HoldsText(m, p, item + ([separator] + rest))
    ensures HoldsText(m, p, item) && m(p + 7) == separator && HoldsText(m, p + 8, rest)
  {
    HoldsBoth(m, p, item, [separator] + rest);
    HoldsBoth(m, p + 7, [separator], rest);
    HoldsFirst(m, p + 7, [separator]);
    assert p + 7 + |[separator]| == p + 8;
    hide HoldsText;
  }

  lemma FirstParsed(m: Memory, p: nat, slots: seq<Slot>)
    requires slots != [] && HoldsText(m, p, Written(slots))
    ensures Parsed(m, p) == Valid(slots[0], if |slots| == 1 then Null else At(p + 8))
    ensures HoldsText(m, p + 8, Written(slots[1..]))
  {
    HoldsItem(m, p, ItemText(slots[0]), if |slots| == 1 then NUL else ',', Written(slots[1..]));
    hide Written, ItemText, Parsed, HoldsText;
    ItemParsed(m, p, slots[0]);
  }

  lemma ParsedFirst(m: Memory, p: nat, slot: Slot, rest: Cursor, n: nat)
    requires Parsed(m, p) == Valid(slot, rest) && n > 0
    ensures ParsedAll(m, At(p), n) == [slot] + ParsedAll(m, rest, n - 1)
  {
  }

  lemma {:induction false} WrittenParsed(m: Memory, p: nat, slots: seq<Slot>, n: nat)
    requires slots != [] && HoldsText(m, p, Written(slots)) && |slots| <= n
    ensures ParsedAll(m, At(p), n) == slots
    decreases |slots|
  {
    hide Parsed, HoldsText, Written;
    FirstParsed(m, p, slots);
    if |slots| == 1 {
      ParsedFirst(m, p, slots[0], Null, n);
    } else {
      ParsedFirst(m, p, slots[0], At(p + 8), n);
      WrittenParsed(m, p + 8, slots[1..], n - 1);
      hide ParsedAll;
      assert [slots[0]] + slots[1..] == slots;
    }
  }

  /** An item is read exactly if there are hex digits up to a colon, or two of them and any character, then four more,
      then a comma, a space or a NUL; their values are the slot's, and only a NUL ends the text. */
  lemma ParsedExactly(m: Memory, p: nat)
    ensures var n := if m(p) == ':' then 0 else if m(p + 1) == ':' then 1 else 2;
            var q, item := p + n + 1, Parsed(m, p);
            && (item.Valid? <==>
                  && (n >= 1 ==> IsHex(m(p))) && (n >= 2 ==> IsHex(m(p + 1)))
                  && IsHex(m(q)) && IsHex(m(q + 1)) && IsHex(m(q + 2)) && IsHex(m(q + 3))
                  && (m(q + 4) == ',' || m(q + 4) == ' ' || m(q + 4) == NUL))
            && (item.Valid? ==>
                  && item.slot.kind == (if n == 0 then 0 else if n == 1 then Nibble(m(p))
                                        else 16 * Nibble(m(p)) + Nibble(m(p + 1)))
                  && item.slot.category == 4096 * Nibble(m(q)) + 256 * Nibble(m(q + 1)) + 16 * Nibble(m(q + 2))
                                           + Nibble(m(q + 3))
                  && item.rest == if m(q + 4) == NUL then Null else At(p + n + 6))
  {
    var kind := KindDigits(m, p);
    var q := p + |kind| + 1;
    hide IsHex, Nibble;
    assert AllHex([]) && Number([]) == 0;
    EachHex(kind);
    EachHex(Digits4(m, q));
    if |kind| == 1 && IsHex(m(p)) {
      SingleValue(m(p), 16);
    } else if |kind| == 2 && IsHex(m(p)) && IsHex(m(p + 1)) {
      Value2(m(p), m(p + 1));
    }
    if IsHex(m(q)) && IsHex(m(q + 1)) && IsHex(m(q + 2)) && IsHex(m(q + 3)) {
      Value4(m(q), m(q + 1), m(q + 2), m(q + 3));
    }
    hide Number;
  }

  lemma EachHex(t: Text)
    ensures AllHex(t) <==> forall i :: 0 <= i < |t| ==> IsHex(t[i])
  {
    hide IsHex;
  }

  /** An item has, in upper case, the two digits of the kind, a colon and the four digits of the category. */
  lemma ItemDigits(s: Slot)
    ensures var t, digits := ItemText(s), "0123456789ABCDEF";
            && t[0] == digits[s.kind / 16] && t[1] == digits[s.kind % 16] && t[2] == ':'
            && t[3] == digits[s.category / 4096] && t[4] == digits[s.category / 256 % 16]
            && t[5] == digits[s.category / 16 % 16] && t[6] == digits[s.category % 16]
  {
    forall d | 0 <= d < 16
      ensures Digit(d, true) == "0123456789ABCDEF"[d]
    {
      DigitIs(d, true);
    }
    hide Digit;
  }

  /** A listing has the slots' items in order, with a comma behind each and a NUL behind the last. */
  lemma {:induction false} WrittenAt(slots: seq<Slot>, k: nat)
    requires k < |slots|
    ensures |Listing(slots)| == 8 * |slots| && Listing(slots)[8 * k..8 * k + 7] == ItemText(slots[k])
    ensures Listing(slots)[8 * k + 7] == if k == |slots| - 1 then NUL else ','
    decreases k
  {
    hide ItemText, Listing;
    ListingUnfolds(slots);
    var item, separator := ItemText(slots[0]), [if |slots| == 1 then NUL else ','];
    if k > 0 {
      var rest := Listing(slots[1..]);
      WrittenAt(slots[1..], k - 1);
      Behind(item, separator, rest, 8 * (k - 1), 8 * k - 1);
    } else {
      var rest := if |slots| == 1 then [] else Listing(slots[1..]);
      assert item + (separator + rest) == (item + separator) + rest;
    }
  }

  lemma ListingUnfolds(slots: seq<Slot>)
    requires slots != []
    ensures var rest := if |slots| == 1 then [] else Listing(slots[1..]);
            Listing(slots) == ItemText(slots[0]) + ([if |slots| == 1 then NUL else ','] + rest)
    ensures |Listing(slots)| == 8 * |slots|
  {
    hide ItemText;
  }

  lemma Behind(item: Text, separator: Text, rest: Text, lo: nat, hi: nat)
    requires |item| == 7 && |separator| == 1 && lo <= hi < |rest|
    ensures (item + (separator + rest))[lo + 8..hi + 8] == rest[lo..hi]
    ensures (item + (separator + rest))[hi + 8] == rest[hi]
  {
    assert item + (separator + rest) == (item + separator) + rest;
  }

  // The bits of a mask below a position, counted.
  function BitsBelow(mask: nat, i: nat): nat
    decreases i
  {
    if i == 0 then 0 else mask % 2 + BitsBelow(mask / 2, i - 1)
  }

  /** Slot i is selected exactly if bit i of the mask is set, and comes behind the slots of the lower bits. */
  lemma {:induction false} SelectedExactly(slots: seq<Slot>, mask: nat, i: nat)
    requires i < |slots|
    ensures |Selected(slots, mask)| == BitsBelow(mask, |slots|)
    ensures var at := BitsBelow(mask, i);
            && BitsBelow(mask, i + 1) == at + mask / Power(2, i) % 2
            && (mask / Power(2, i) % 2 == 1 ==> at < |Selected(slots, mask)| && Selected(slots, mask)[at] == slots[i])
    decreases |slots|
  {
    SelectedSize(slots, mask);
    if i > 0 {
      BitHalved(mask, i);
      SelectedExactly(slots[1..], mask / 2, i - 1);
    } else {
      assert BitsBelow(mask / 2, 0) == 0;
    }
    hide Power;
  }

  lemma {:induction false} SelectedSize(slots: seq<Slot>, mask: nat)
    ensures |Selected(slots, mask)| == BitsBelow(mask, |slots|)
    decreases |slots|
  {
    if slots != [] {
      SelectedSize(slots[1..], mask / 2);
    }
  }

  lemma BitHalved(mask: nat, i: nat)
    requires i > 0
    ensures mask / Power(2, i) == mask / 2 / Power(2, i - 1)
  {
    var p := Power(2, i - 1);
    var q, r := mask / 2 / p, mask / 2 % p;
    assert mask == 2 * (p * q + r) + mask % 2;
    Unique(mask, 2 * p, q, 2 * r + mask % 2);
  }

  /** Reading a listing back gives the slots it was made of. */
  lemma ListingParsed(m: Memory, p: nat, slots: seq<Slot>, n: nat)
    requires HoldsText(m, p, Listing(slots)) && |slots| <= n
    ensures ParsedAll(m, At(p), n) == slots
  {
    hide Parsed, HoldsText, Written;
    if slots == [] {
      NothingParsed(m, p);
    } else {
      WrittenParsed(m, p, slots, n);
    }
  }

  /** The slots a mask of ones selects are the first ones. */
  lemma {:induction false} SelectedByOnes(slots: seq<Slot>, k: nat)
    requires k <= |slots|
    ensures Selected(slots, Ones(k)) == slots[..k]
    decreases |slots|
  {
    if slots != [] {
      LowestOne(k);
      hide Ones;
      SelectedByOnes(slots[1..], if k > 0 then k - 1 else 0);
    }
  }

  lemma LowestOne(k: nat)
    ensures k == 0 ==> Ones(k) == 0
    ensures k > 0 ==> Ones(k) % 2 == 1 && Ones(k) / 2 == Ones(k - 1)
  {
    if k > 0 {
      OnesUnfolds(k);
      hide Ones;
      Odd(Ones(k - 1));
    }
  }

  lemma OnesUnfolds(k: nat)
    requires k > 0
    ensures Ones(k) == 2 * Ones(k - 1) + 1
  {
  }

  lemma Odd(x: nat)
    ensures (2 * x + 1) % 2 == 1 && (2 * x + 1) / 2 == x
  {
  }

  /** Writing the slots of any mask and reading them into a fresh object gives the slots selected, moved
      up to the front. The mask comes back, and with it every slot to its place, exactly if it was that
      of the first k slots. */
  lemma RoundTrip(slots: seq<Slot>, mask: nat, m: Memory, p: nat)
    requires HoldsText(m, p, Listing(Selected(slots, mask)))
    ensures var read := ParsedAll(m, At(p), |slots|);
            && read == Selected(slots, mask)
            && (Ones(|read|) == mask <==> exists k :: 0 <= k <= |slots| && mask == Ones(k))
            && forall k :: 0 <= k <= |slots| && mask == Ones(k) ==> read == slots[..k]
  {
    ListingParsed(m, p, Selected(slots, mask), |slots|);
    forall k | 0 <= k <= |slots| && mask == Ones(k)
      ensures Ones(|Selected(slots, mask)|) == mask && Selected(slots, mask) == slots[..k]
    {
      SelectedByOnes(slots, k);
    }
  }

  /* ---- The routines ---- */

  function Read(m: Memory, p: nat, n: nat): (t: Text)
    ensures |t| == n
  {
    seq(n, i requires 0 <= i < n => m(p + i))
  }

  lemma ReadMore(m: Memory, p: nat, n: nat)
    requires AllHex(Read(m, p, n)) && IsHex(m(p + n)) && n < 4
    ensures AllHex(Read(m, p, n + 1))
    ensures Value(Read(m, p, n + 1), 16) == Value(Read(m, p, n), 16) * 16 + Nibble(m(p + n)) < 0x1_0000
  {
    assert Read(m, p, n + 1) == Read(m, p, n) + [m(p + n)];
    ValueSnoc(Read(m, p, n), m(p + n), 16);
    ValueBound(Read(m, p, n + 1));
    hide IsHex, Nibble, Read, Value;
  }

  // The items, each with a comma behind it.
  function Commas(slots: seq<Slot>): (t: Text)
    ensures |t| == 8 * |slots|
    decreases |slots|
  {
    if slots == [] then [] else ItemText(slots[0]) + ([','] + Commas(slots[1..]))
  }

  lemma {:induction false} LastComma(slots: seq<Slot>)
    requires slots != []
    ensures Commas(slots)[..8 * |slots| - 1] + [NUL] == Written(slots)
    decreases |slots|
  {
    hide ItemText;
    if |slots| > 1 {
      var rest := slots[1..];
      LastComma(rest);
      var front := ItemText(slots[0]) + [','];
      assert Commas(slots) == front + Commas(rest);
      assert Written(slots) == front + Written(rest);
      assert Commas(slots)[..8 * |slots| - 1] == front + Commas(rest)[..8 * |rest| - 1];
    }
  }

  lemma KindRead(m: Memory, s: nat, i: nat)
    requires i <= 2 && AllHex(Read(m, s, i))
    requires i < 2 ==> m(s + i) == ':' || !IsHex(m(s + i))
    ensures if i < 2 && m(s + i) != ':' then !AllHex(KindDigits(m, s)) else KindDigits(m, s) == Read(m, s, i)
  {
    var t := Read(m, s, i);
    assert forall j :: 0 <= j < i ==> t[j] in t && t[j] == m(s + j);
    assert i > 0 ==> t[0] != ':';
    assert i > 1 ==> t[1] != ':';
    if i < 2 && m(s + i) != ':' {
      assert m(s + i) in KindDigits(m, s);
    }
  }

  lemma CategoryRead(m: Memory, q: nat, i: nat)
    requires i <= 4 && AllHex(Read(m, q, i))
    requires i < 4 ==> !IsHex(m(q + i))
    ensures if i < 4 then !AllHex(Digits4(m, q)) else Digits4(m, q) == Read(m, q, 4)
  {
  }

  // The first of the parser's two loops: what it has read, or that it gave up.
  method ParseKind(m: Memory, s: nat) returns (ok: bool, tmp: Half, b: nat)
    ensures ok == AllHex(KindDigits(m, s))
    ensures ok ==> tmp == Value(KindDigits(m, s), 16) && b == s + |KindDigits(m, s)|
  {
    ok, b, tmp := true, s, 0;
    var i := 0;
    NoDigits(m, s);
    hide Nibble, NibbleOf, Value, Read, KindDigits, AllHex;
    while i < 2 && m(b) != ':'
      invariant i <= 2 && b == s + i
      invariant AllHex(Read(m, s, i)) && tmp == Value(Read(m, s, i), 16)
      decreases 2 - i
    {
      if !IsHex(m(b)) {
        KindRead(m, s, i);
        ok := false;
        return;
      }
      NibbleAgrees(m(b));
      ReadMore(m, s, i);
      tmp := (tmp * 16 + NibbleOf(m(b))) % 0x1_0000;
      b := b + 1;
      i := i + 1;
    }
    KindRead(m, s, i);
  }

  // The second.
  method ParseCategory(m: Memory, s: nat) returns (ok: bool, tmp: Half, b: nat)
    ensures ok == AllHex(Digits4(m, s))
    ensures ok ==> tmp == Value(Digits4(m, s), 16) && b == s + 4
  {
    ok, b, tmp := true, s, 0;
    var i := 0;
    NoDigits(m, s);
    assert !IsHex(',') && !IsHex(NUL);
    hide Nibble, NibbleOf, Value, Read, Digits4, AllHex, IsHex;
    while i < 4 && m(b) != ',' && m(b) != NUL
      invariant i <= 4 && b == s + i
      invariant AllHex(Read(m, s, i)) && tmp == Value(Read(m, s, i), 16)
      decreases 4 - i
    {
      if !IsHex(m(b)) {
        CategoryRead(m, s, i);
        ok := false;
        return;
      }
      NibbleAgrees(m(b));
      ReadMore(m, s, i);
      tmp := (tmp * 16 + NibbleOf(m(b))) % 0x1_0000;
      b := b + 1;
      i := i + 1;
    }
    CategoryRead(m, s, i);
    ok := i == 4;
  }

  // The item at an address.
  method Parse(m: Memory, s: nat) returns (item: Item)
    ensures item == Parsed(m, s)
  {
    hide AllHex, KindDigits, Digits4, Value;
    var ok, kind, b := ParseKind(m, s);
    if !ok {
      return Invalid;
    }
    ValueBound(KindDigits(m, s));
    b := b + 1;
    var category;
    ok, category, b := ParseCategory(m, b);
    if !ok {
      return Invalid;
    }
    if m(b) != ',' && m(b) != ' ' && m(b) != NUL {
      return Invalid;
    }
    item := Valid(Slot(kind, category), if m(b) == NUL then Null else At(b + 1));
  }

  lemma NoDigits(m: Memory, p: nat)
    ensures AllHex(Read(m, p, 0)) && Value(Read(m, p, 0), 16) == 0
  {
  }

  // One more slot written.
  lemma CommasSnoc(slots: seq<Slot>, s: Slot)
    ensures Commas(slots + [s]) == Commas(slots) + (ItemText(s) + [','])
    decreases |slots|
  {
    hide ItemText;
    if slots == [] {
      assert slots + [s] == [s];
      assert Commas([s]) == ItemText(s) + ([','] + Commas([]));
    } else {
      CommasSnoc(slots[1..], s);
      assert (slots + [s])[1..] == slots[1..] + [s];
    }
  }

  lemma AddOnes(k: nat)
    ensures Ones(k) + Power(2, k) == Ones(k + 1)
    ensures k <= 32 ==> Ones(k) < 0x1_0000_0000
  {
    OnesIsPower(k);
    OnesIsPower(k + 1);
    if k <= 32 {
      OnesGrow(k, 32);
      Ones32();
    }
  }

  lemma Ones32()
    ensures Ones(32) == 0xFFFF_FFFF
  {
    assert Ones(8) == 0xFF;
    assert Ones(16) == 0xFFFF;
    assert Ones(24) == 0xFF_FFFF;
  }

  lemma OnesGrow(k: nat, n: nat)
    requires k <= n
    ensures Ones(k) <= Ones(n)
    decreases n
  {
  }

  // The slots with the first ones overwritten.
  function Overwritten(slots: seq<Slot>, read: seq<Slot>): (r: seq<Slot>)
    requires |read| <= |slots|
    ensures |r| == |slots|
  {
    read + slots[|read|..]
  }

  // What has been read by now and what is still to come.
  function Onward(read: seq<Slot>, m: Memory, p: Cursor, n: nat): seq<Slot> {
    read + ParsedAll(m, p, n)
  }

  lemma NothingRead(m: Memory, p: Cursor, n: nat, slots: seq<Slot>)
    ensures Onward([], m, p, n) == ParsedAll(m, p, n)
    ensures Overwritten(slots, []) == slots
    ensures Ones(0) == 0
  {
  }

  lemma NoMore(read: seq<Slot>, m: Memory, p: Cursor, n: nat)
    requires p == Null || n == 0
    ensures Onward(read, m, p, n) == read
  {
  }

  // Reading one item further, into slot number |read|.
  lemma ReadOn(m: Memory, p: nat, n: nat, read: seq<Slot>, slots: seq<Slot>)
    requires n > 0 && |read| < |slots|
    ensures var item := Parsed(m, p);
            if item.Invalid? then Onward(read, m, At(p), n) == read
            else
              && Onward(read, m, At(p), n) == Onward(read + [item.slot], m, item.rest, n - 1)
              && Overwritten(slots, read)[|read| := item.slot] == Overwritten(slots, read + [item.slot])
  {
  }

  // Writes one item and the comma behind it.
  method Append(text: array<char>, s: Slot, p: nat)
    requires p + 8 <= text.Length
    modifies text
    ensures text[..p + 8] == old(text[..p]) + (ItemText(s) + [','])
  {
    ghost var before := text[..p];
    text[p] := Digit(s.kind / 16, true);
    text[p + 1] := Digit(s.kind % 16, true);
    text[p + 2] := ':';
    text[p + 3] := Digit(s.category / 4096, true);
    text[p + 4] := Digit(s.category / 256 % 16, true);
    text[p + 5] := Digit(s.category / 16 % 16, true);
    text[p + 6] := Digit(s.category % 16, true);
    hide Digit;
    text[p + 7] := ',';
    assert text[p..p + 8] == ItemText(s) + [','];
    assert text[..p] == before;
  }

  // The slots taken so far and those still to come.
  function Awaiting(done: seq<Slot>, slots: seq<Slot>, i: nat, bits: nat): seq<Slot>
    requires i <= |slots|
  {
    done + Selected(slots[i..], bits)
  }

  lemma {:induction false} NoneSelected(slots: seq<Slot>)
    ensures Selected(slots, 0) == []
    decreases |slots|
  {
    if slots != [] {
      NoneSelected(slots[1..]);
    }
  }

  lemma NoneListed(slots: seq<Slot>)
    ensures Listing(Selected(slots, 0)) == [NUL]
  {
  }

  lemma NoneDone(slots: seq<Slot>, mask: nat)
    ensures Awaiting([], slots, 0, mask) == Selected(slots, mask) && Commas([]) == []
  {
  }

  lemma OneSeen(done: seq<Slot>, slots: seq<Slot>, i: nat, bits: nat)
    requires i < |slots|
    ensures Awaiting(done, slots, i, bits)
         == Awaiting(if bits % 2 == 1 then done + [slots[i]] else done, slots, i + 1, bits / 2)
    ensures Commas(done + [slots[i]]) == Commas(done) + (ItemText(slots[i]) + [','])
  {
    assert slots[i..][1..] == slots[i + 1..];
    CommasSnoc(done, slots[i]);
  }

  lemma AllSeen(done: seq<Slot>, slots: seq<Slot>, bits: nat)
    ensures Awaiting(done, slots, |slots|, bits) == done
    ensures done != [] ==> Commas(done)[..8 * |done| - 1] + [NUL] == Listing(done)
  {
    assert slots[|slots|..] == [];
    if done != [] {
      LastComma(done);
    }
  }

  // The text of the slots a mask selects stays inside the buffer.
  predicate Fits(slots: seq<Slot>, mask: nat) {
    mask == 0 || 0 < 8 * |Selected(slots, mask)| <= ROOM * |slots|
  }

  lemma MoreToCome(done: seq<Slot>, slots: seq<Slot>, i: nat, bits: nat)
    requires i <= |slots|
    ensures |done| <= |Awaiting(done, slots, i, bits)|
  {
  }

  /** So the text of the first k slots fits exactly if 8 * k is at most 7 for every slot: that of all of them never. */
  lemma FirstSlotsFit(slots: seq<Slot>, k: nat)
    requires 0 < k <= |slots|
    ensures Fits(slots, Ones(k)) <==> 8 * k <= ROOM * |slots|
    ensures !Fits(slots, Ones(|slots|))
  {
    SelectedByOnes(slots, k);
    SelectedByOnes(slots, |slots|);
    LowestOne(k);
    LowestOne(|slots|);
    hide Ones;
  }

  class DmxSlotInfo {
    const slots: array<Slot>
    var text: array?<char>

    ghost predicate Valid()
      reads this
    {
      slots.Length != 0 && (text != null ==> text.Length == ROOM * slots.Length)
    }

    constructor (slots: array<Slot>)
      requires slots.Length != 0
      modifies slots
      ensures Valid() && this.slots == slots && text == null
      ensures forall i :: 0 <= i < slots.Length ==> slots[i] == Slot(0x00, 0xFFFF)
    {
      this.slots := slots;
      text := null;
      new;
      for i := 0 to slots.Length
        invariant Valid() && this.slots == slots && text == null
        invariant forall j :: 0 <= j < i ==> slots[j] == Slot(0x00, 0xFFFF)
      {
        slots[i] := Slot(0x00, 0xFFFF);
      }
    }

    /** Reads slots from text. The mask is always that of the first k slots, those read; the others keep
        what they had. */
    method FromString(m: Memory, string_: nat) returns (mask: Word)
      requires Valid() && slots.Length <= 32
      modifies slots
      ensures var read := ParsedAll(m, At(string_), slots.Length);
              mask == Ones(|read|) && slots[..] == Overwritten(old(slots[..]), read)
    {
      hide Parsed, ParsedAll, Ones, Power, Overwritten, Onward;
      NothingRead(m, At(string_), slots.Length, slots[..]);
      var p: Cursor := At(string_);
      mask := 0;
      ghost var before := slots[..];
      ghost var all := ParsedAll(m, p, slots.Length);
      ghost var read := [];
      var i := 0;
      while i < slots.Length
        invariant |read| <= i <= slots.Length && mask == Ones(|read|)
        invariant p != Null ==> |read| == i
        invariant Onward(read, m, p, slots.Length - i) == all
        invariant slots[..] == Overwritten(before, read)
      {
        if p == Null {
          break;
        }
        ReadOn(m, p.address, slots.Length - i, read, before);
        var item := Parse(m, p.address);
        if item.Valid? {
          slots[i] := item.slot;
          AddOnes(i);
          AddOnes(i + 1);
          mask := mask + Power(2, i);  // or-ing in bit i, which is clear
          read := read + [item.slot];
          p := item.rest;
        } else {
          p := Null;
          NoMore(read, m, p, slots.Length - i - 1);
        }
        i := i + 1;
      }
      NoMore(read, m, p, slots.Length - i);
    }

    /** Writes the slots of a mask as text, and says whether all of it goes into the buffer: it does exactly if the
        slots selected, at 8 characters each, fit the 7 that are allocated for every slot there is. A mask that is
        not 0 but selects none steps back over the buffer's beginning. */
    method ToString(mask: Word) returns (inside: bool)
      requires Valid()
      modifies this`text, text
      ensures Valid() && text != null
      ensures if old(text) == null then fresh(text) else text == old(text)
      ensures slots[..] == old(slots[..])
      ensures inside <==> Fits(slots[..], mask)
      ensures inside <==> mask == 0 || 0 < 8 * |Selected(slots[..], mask)| <= 7 * slots.Length
      ensures inside ==>
                var listing := Listing(Selected(slots[..], mask));
                |listing| <= text.Length && text[..|listing|] == listing
    {
      hide Selected, Listing, Written, Commas, ItemText, Awaiting;
      if text == null {
        text := new char[ROOM * slots.Length];
        text[0] := NUL;
      }
      ghost var was := slots[..];
      if mask == 0 {
        text[0] := NUL;
        NoneListed(was);
        assert text[..1] == [NUL];
        return true;
      }
      var buffer: array<char> := text;
      var p := 0;
      var bits := mask;
      ghost var done := [];
      ghost var all := Selected(was, mask);
      NoneDone(was, mask);
      for i := 0 to slots.Length
        modifies buffer
        invariant slots[..] == was
        invariant Awaiting(done, was, i, bits) == all
        invariant |done| <= i && p == 8 * |done| <= buffer.Length
        invariant buffer[..p] == Commas(done)
      {
        OneSeen(done, was, i, bits);
        if bits % 2 == 1 {
          if buffer.Length < p + 8 {
            MoreToCome(done + [was[i]], was, i + 1, bits / 2);
            return false;
          }
          Append(buffer, slots[i], p);
          p := p + 8;
          done := done + [was[i]];
        }
        bits := bits / 2;
      }
      AllSeen(done, was, bits);
      if p == 0 {
        return false;
      }
      p := p - 1;
      buffer[p] := NUL;
      assert buffer[..p + 1] == Commas(all)[..p] + [NUL];
      return true;
    }
  }

  // A text and what may lie behind it.
  function InMemory(t: Text): (m: Memory)
    ensures forall n: nat :: n <= |t| ==> HoldsText(m, 0, t[..n])
  {
    (a: nat) => if a < |t| then t[a] else NUL
  }

  /** The round trip as a caller runs it: the slots of a mask written by one object and, if their text stays inside its
      buffer, read from there by a fresh one. That has them at the front, in order, and returns the same mask exactly
      if it was that of the first k slots. */
  method Restore(info: DmxSlotInfo, mask: Word) returns (inside: bool, again: DmxSlotInfo, read: Word)
    requires info.Valid() && info.slots.Length <= 32
    modifies info`text, info.text
    ensures info.Valid() && again.Valid() && again.slots.Length == info.slots.Length
    ensures info.slots[..] == old(info.slots[..])
    ensures inside <==> Fits(info.slots[..], mask)
    ensures inside ==>
              var selected := Selected(info.slots[..], mask);
              && read == Ones(|selected|) && again.slots[..|selected|] == selected
              && (read == mask <==> exists k :: 0 <= k <= info.slots.Length && mask == Ones(k))
  {
    hide Selected, Listing, Ones, Fits, ParsedAll, HoldsText, Overwritten, Power;
    inside := info.ToString(mask);
    var slots := new Slot[info.slots.Length](_ => Slot(0, 0));
    again := new DmxSlotInfo(slots);
    read := 0;
    if inside {
      ghost var listing := Listing(Selected(info.slots[..], mask));
      var m := InMemory(info.text[..]);
      assert info.text[..][..|listing|] == info.text[..|listing|];
      RoundTrip(info.slots[..], mask, m, 0);
      OverwrittenFront(again.slots[..], Selected(info.slots[..], mask));
      read := again.FromString(m, 0);
    }
  }

  lemma OverwrittenFront(slots: seq<Slot>, read: seq<Slot>)
    requires |read| <= |slots|
    ensures |Overwritten(slots, read)| == |slots| && Overwritten(slots, read)[..|read|] == read
  {
  }
}
