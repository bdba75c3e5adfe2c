/** The bitwise CRC-32 register of lib-network/src/network_crc.cpp.

    The register is shifted left, message bits enter at the top, least significant bit of each
    byte first, and the result is complemented. The theorem is about the code as a detector:
    an error burst of at most 32 transmitted bits always changes the checksum.

    The code works on a 32-bit word. The argument works on the same word written out as bits,
    most significant first, where the register step is a shift and a pointwise exclusive-or. */
module Crc {

  type Bits32 = bv32

  type Bits = seq<bool>

  const POLYNOMIAL: Bits32 := 0x04C1_1DB7

  const TOP: Bits32 := 0x8000_0000

  /* ---- The register as the code has it ---- */

  // One pass of the inner loop: the register after one more message bit.
  function Step(crc: Bits32, bit: bool): Bits32 {
    if (crc & TOP != 0) != bit then (crc << 1) ^ POLYNOMIAL else crc << 1
  }

  function Register(crc: Bits32, bits: Bits): Bits32
    decreases |bits|
  {
    if bits == [] then crc else Register(Step(crc, bits[0]), bits[1..])
  }

  function Bit(b: bv8, j: nat): bool
    requires j < 8
  {
    (b >> j) & 1 == 1
  }

  // The bits in the order they enter the register: byte by byte, low bit first.
  function Transmitted(data: seq<bv8>): (bits: Bits)
    ensures |bits| == 8 * |data|
    ensures forall p :: 0 <= p < |bits| ==> bits[p] == Bit(data[p / 8], p % 8)
  {
    seq(8 * |data|, p requires 0 <= p < 8 * |data| => Bit(data[p / 8], p % 8))
  }

  function Checksum(data: seq<bv8>): Bits32 {
    !Register(0xFFFF_FFFF, Transmitted(data))
  }

  lemma {:induction false} RegisterSnoc(crc: Bits32, bits: Bits, n: nat)
    requires n < |bits|
    ensures Register(crc, bits[..n + 1]) == Step(Register(crc, bits[..n]), bits[n])
    decreases n
  {
    if n == 0 {
      assert bits[..1] == [bits[0]];
    } else {
      assert bits[..n + 1][1..] == bits[1..][..n] && bits[..n][1..] == bits[1..][..n - 1];
      RegisterSnoc(Step(crc, bits[0]), bits[1..], n - 1);
    }
  }

  // The test the code makes on the two shifted-down words.
  lemma ShiftedTest(crc: Bits32, b: bv8, j: nat)
    requires j < 8
    ensures ((crc >> 31) ^ ((b >> j) as Bits32)) & 1 == 1 <==> ((crc & TOP != 0) != Bit(b, j))
  {
  }

  lemma BitsOfByte(data: seq<bv8>, i: nat, crc: Bits32, j: nat)
    requires i < |data| && j < 8
    ensures var bits := Transmitted(data);
      Register(crc, bits[..8 * i + j + 1]) == Step(Register(crc, bits[..8 * i + j]), Bit(data[i], j))
  {
    RegisterSnoc(crc, Transmitted(data), 8 * i + j);
  }

  /** The nested loops compute the checksum of the bit string. */
  method Compute(data: array<bv8>) returns (result: Bits32)
    ensures result == Checksum(data[..])
  {
    var crc: Bits32 := 0xFFFF_FFFF;
    ghost var bits := Transmitted(data[..]);
    for i := 0 to data.Length
      invariant crc == Register(0xFFFF_FFFF, bits[..8 * i])
    {
      for j := 0 to 8
        invariant crc == Register(0xFFFF_FFFF, bits[..8 * i + j])
      {
        BitsOfByte(data[..], i, 0xFFFF_FFFF, j);
        crc := ShiftIn(crc, data[i], j);
      }
    }
    assert bits[..8 * data.Length] == bits;
    result := !crc;
  }

  // The body of the inner loop.
  method ShiftIn(crc: Bits32, b: bv8, j: nat) returns (next: Bits32)
    requires j < 8
    ensures next == Step(crc, Bit(b, j))
  {
    ShiftedTest(crc, b, j);
    if ((crc >> 31) ^ ((b >> j) as Bits32)) & 1 == 1 {
      next := (crc << 1) ^ POLYNOMIAL;
    } else {
      next := crc << 1;
    }
  }

  /* ---- The same register, bit by bit ---- */

  // Whether the bit with i more significant ones above it is set.
  predicate BitSet(w: Bits32, i: nat)
    decreases i
  {
    if i == 0 then w & TOP != 0 else BitSet(w << 1, i - 1)
  }

  // A word as its bits, most significant first.
  function BitsOf(w: Bits32): (bits: Bits)
    ensures |bits| == 32
    ensures forall i :: 0 <= i < 32 ==> bits[i] == BitSet(w, i)
  {
    seq(32, i requires 0 <= i < 32 => BitSet(w, i))
  }

  function Xor(a: Bits, b: Bits): (c: Bits)
    requires |a| == |b|
    ensures |c| == |a|
    ensures forall i :: 0 <= i < |c| ==> c[i] == (a[i] != b[i])
  {
    seq(|a|, i requires 0 <= i < |a| => a[i] != b[i])
  }

  function Shift(r: Bits): Bits
    requires r != []
  {
    r[1..] + [false]
  }

  function StepBits(r: Bits, polynomial: Bits, bit: bool): (next: Bits)
    requires |r| == |polynomial| > 0
    ensures |next| == |r|
  {
    if r[0] != bit then Xor(Shift(r), polynomial) else Shift(r)
  }

  function Run(r: Bits, polynomial: Bits, bits: Bits): (last: Bits)
    requires |r| == |polynomial| > 0
    ensures |last| == |r|
    decreases |bits|
  {
    if bits == [] then r else Run(StepBits(r, polynomial, bits[0]), polynomial, bits[1..])
  }

  ghost predicate IsXor(s: Bits32, t: Bits32, u: Bits32) {
    u == s ^ t
  }

  lemma ShiftXor(s: Bits32, t: Bits32, u: Bits32)
    requires IsXor(s, t, u)
    ensures IsXor(s << 1, t << 1, u << 1)
  {
  }

  lemma TopXor(s: Bits32, t: Bits32, u: Bits32)
    requires IsXor(s, t, u)
    ensures BitSet(u, 0) == (BitSet(s, 0) != BitSet(t, 0))
  {
  }

  lemma Lower(w: Bits32, i: nat)
    requires i > 0
    ensures BitSet(w, i) == BitSet(w << 1, i - 1)
  {
  }

  lemma {:induction false} XorBit(s: Bits32, t: Bits32, u: Bits32, i: nat)
    requires IsXor(s, t, u)
    ensures BitSet(u, i) == (BitSet(s, i) != BitSet(t, i))
    decreases i
  {
    hide BitSet, IsXor;
    if i == 0 {
      TopXor(s, t, u);
    } else {
      Lower(s, i);
      Lower(t, i);
      Lower(u, i);
      ShiftXor(s, t, u);
      XorBit(s << 1, t << 1, u << 1, i - 1);
    }
  }

  // The mask that picks bit i out.
  ghost function Mask(i: nat): Bits32 {
    if i == 0 then TOP else Mask(i - 1) >> 1
  }

  lemma MaskDown(w: Bits32, mask: Bits32)
    ensures (w << 1) & mask != 0 <==> w & (mask >> 1) != 0
  {
  }

  lemma {:induction false} MaskedBit(w: Bits32, i: nat)
    ensures BitSet(w, i) == (w & Mask(i) != 0)
    decreases i
  {
    if i > 0 {
      MaskedBit(w << 1, i - 1);
      MaskDown(w, Mask(i - 1));
    }
  }

  lemma LowestMask()
    ensures Mask(31) == 1
  {
    assert Mask(4) == 0x0800_0000;
    assert Mask(8) == 0x0080_0000;
    assert Mask(12) == 0x0008_0000;
    assert Mask(16) == 0x0000_8000;
    assert Mask(20) == 0x0000_0800;
    assert Mask(24) == 0x0000_0080;
    assert Mask(28) == 0x0000_0008;
  }

  lemma LastBit(w: Bits32)
    ensures BitSet(w, 31) == (w & 1 != 0)
  {
    MaskedBit(w, 31);
    LowestMask();
  }

  lemma BitsOfXor(s: Bits32, t: Bits32)
    ensures BitsOf(s ^ t) == Xor(BitsOf(s), BitsOf(t))
  {
    forall i | 0 <= i < 32
      ensures BitSet(s ^ t, i) == (BitSet(s, i) != BitSet(t, i))
    {
      XorBit(s, t, s ^ t, i);
    }
  }

  lemma ShiftedOut(w: Bits32)
    ensures !BitSet(w << 1, 31)
  {
    LastBit(w << 1);
  }

  lemma BitsOfShift(w: Bits32)
    ensures BitsOf(w << 1) == Shift(BitsOf(w))
  {
    ShiftedOut(w);
    var shifted := BitsOf(w << 1);
    forall i | 0 <= i < 32
      ensures shifted[i] == Shift(BitsOf(w))[i]
    {
      if i < 31 {
        assert BitSet(w << 1, i) == BitSet(w, i + 1);
      }
    }
  }

  function Polynomial(): (bits: Bits)
    ensures |bits| == 32 && bits[31]
  {
    LastBit(POLYNOMIAL);
    BitsOf(POLYNOMIAL)
  }

  lemma ReducedStep(crc: Bits32)
    ensures BitsOf((crc << 1) ^ POLYNOMIAL) == Xor(Shift(BitsOf(crc)), Polynomial())
  {
    BitsOfShift(crc);
    BitsOfXor(crc << 1, POLYNOMIAL);
  }

  lemma StepIsStepBits(crc: Bits32, bit: bool)
    ensures BitsOf(Step(crc, bit)) == StepBits(BitsOf(crc), Polynomial(), bit)
  {
    assert BitsOf(crc)[0] == (crc & TOP != 0);
    if BitsOf(crc)[0] != bit {
      ReducedStep(crc);
    } else {
      BitsOfShift(crc);
    }
  }

  /** The word register and the bit register run alike. */
  lemma {:induction false} RegisterIsRun(crc: Bits32, bits: Bits)
    ensures BitsOf(Register(crc, bits)) == Run(BitsOf(crc), Polynomial(), bits)
    decreases |bits|
  {
    if bits != [] {
      StepIsStepBits(crc, bits[0]);
      RegisterIsRun(Step(crc, bits[0]), bits[1..]);
    }
  }

  /* ---- Linearity ---- */

  lemma StepLinear(r: Bits, s: Bits, polynomial: Bits, x: bool, y: bool)
    requires |r| == |s| == |polynomial| > 0
    ensures Xor(StepBits(r, polynomial, x), StepBits(s, polynomial, y)) == StepBits(Xor(r, s), polynomial, x != y)
  {
  }

  /** The exclusive-or of two runs is the run of the exclusive-or. */
  lemma {:induction false} RunLinear(r: Bits, s: Bits, polynomial: Bits, x: Bits, y: Bits)
    requires |r| == |s| == |polynomial| > 0 && |x| == |y|
    ensures Xor(Run(r, polynomial, x), Run(s, polynomial, y)) == Run(Xor(r, s), polynomial, Xor(x, y))
    decreases |x|
  {
    if x != [] {
      StepLinear(r, s, polynomial, x[0], y[0]);
      RunLinear(StepBits(r, polynomial, x[0]), StepBits(s, polynomial, y[0]), polynomial, x[1..], y[1..]);
      assert Xor(x, y)[1..] == Xor(x[1..], y[1..]);
    }
  }

  lemma {:induction false} RunAppend(r: Bits, polynomial: Bits, a: Bits, b: Bits)
    requires |r| == |polynomial| > 0
    ensures Run(r, polynomial, a + b) == Run(Run(r, polynomial, a), polynomial, b)
    decreases |a|
  {
    if a == [] {
      assert a + b == b;
    } else {
      assert (a + b)[1..] == a[1..] + b;
      RunAppend(StepBits(r, polynomial, a[0]), polynomial, a[1..], b);
    }
  }

  /* ---- What a run that ends in zero tells about where it began ---- */

  ghost predicate NoneSet(bits: Bits) {
    forall i :: 0 <= i < |bits| ==> !bits[i]
  }

  // A step to a word whose last k bits are zero starts from one whose last k - 1 bits are.
  lemma StepBack(r: Bits, polynomial: Bits, bit: bool, k: nat)
    requires |r| == |polynomial| > 0 && polynomial[|r| - 1]
    requires 0 < k <= |r| && NoneSet(StepBits(r, polynomial, bit)[|r| - k..])
    ensures r[0] == bit
    ensures NoneSet(r[|r| - k + 1..])
  {
    var next, n := StepBits(r, polynomial, bit), |r|;
    assert !next[n - k..][k - 1];
    forall i | n - k + 1 <= i < n
      ensures !r[i]
    {
      assert !next[n - k..][i - 1 - (n - k)];
    }
  }

  lemma {:induction false} ZeroBits(r: Bits, polynomial: Bits, bits: Bits)
    requires |r| == |polynomial| > 0 && polynomial[|r| - 1] && NoneSet(bits)
    ensures NoneSet(Run(r, polynomial, bits)) <==> NoneSet(r)
    decreases |bits|
  {
    if bits != [] {
      var next := StepBits(r, polynomial, bits[0]);
      ZeroBits(next, polynomial, bits[1..]);
      if NoneSet(next) {
        StepBack(r, polynomial, bits[0], |r|);
        assert r == [r[0]] + r[1..];
      }
    }
  }

  /** Each step backwards from the zero register can free only one more of the leading bits. */
  lemma {:induction false} BackFromZero(r: Bits, polynomial: Bits, bits: Bits)
    requires |r| == |polynomial| > |bits| && polynomial[|r| - 1]
    requires NoneSet(Run(r, polynomial, bits))
    ensures NoneSet(r[|bits|..])
    decreases |bits|
  {
    if bits != [] {
      BackFromZero(StepBits(r, polynomial, bits[0]), polynomial, bits[1..]);
      StepBack(r, polynomial, bits[0], |r| - |bits| + 1);
    }
  }

  // Entering at most as many bits as the register has, the first of them set, never ends in zero.
  lemma WindowFromZero(zero: Bits, polynomial: Bits, burst: Bits)
    requires |zero| == |polynomial| > 0 && polynomial[|zero| - 1] && NoneSet(zero)
    requires 0 < |burst| <= |zero| && burst[0]
    ensures !NoneSet(Run(zero, polynomial, burst))
  {
    var entered := StepBits(zero, polynomial, true);
    assert entered[|zero| - 1] && entered[|burst| - 1..][|zero| - |burst|];
    if NoneSet(Run(zero, polynomial, burst)) {
      BackFromZero(entered, polynomial, burst[1..]);
    }
  }

  lemma QuietAfter(zero: Bits, polynomial: Bits, burst: Bits, rest: Bits)
    requires |zero| == |polynomial| > 0 && polynomial[|zero| - 1] && NoneSet(zero)
    requires 0 < |burst| <= |zero| && burst[0] && NoneSet(rest)
    ensures !NoneSet(Run(zero, polynomial, burst + rest))
  {
    hide Run;
    RunAppend(zero, polynomial, burst, rest);
    WindowFromZero(zero, polynomial, burst);
    ZeroBits(Run(zero, polynomial, burst), polynomial, rest);
  }

  lemma BurstFromZero(zero: Bits, polynomial: Bits, lead: Bits, burst: Bits, rest: Bits)
    requires |zero| == |polynomial| > 0 && polynomial[|zero| - 1] && NoneSet(zero)
    requires NoneSet(lead) && 0 < |burst| <= |zero| && burst[0] && NoneSet(rest)
    ensures !NoneSet(Run(zero, polynomial, lead + (burst + rest)))
  {
    hide Run;
    ZeroBits(zero, polynomial, lead);
    QuietAfter(Run(zero, polynomial, lead), polynomial, burst, rest);
    RunAppend(zero, polynomial, lead, burst + rest);
  }

  /* ---- The detection theorem ---- */

  lemma ByteFromBits(x: bv8, y: bv8)
    requires forall j: nat :: j < 8 ==> Bit(x, j) == Bit(y, j)
    ensures x == y
  {
    assert Bit(x, 0) == Bit(y, 0) && Bit(x, 1) == Bit(y, 1) && Bit(x, 2) == Bit(y, 2) && Bit(x, 3) == Bit(y, 3);
    assert Bit(x, 4) == Bit(y, 4) && Bit(x, 5) == Bit(y, 5) && Bit(x, 6) == Bit(y, 6) && Bit(x, 7) == Bit(y, 7);
  }

  /** Different messages differ in some transmitted bit. */
  lemma SomeDifference(a: seq<bv8>, b: seq<bv8>) returns (p: nat)
    requires |a| == |b| && a != b
    ensures p < 8 * |a| && Transmitted(a)[p] != Transmitted(b)[p]
  {
    var i :| 0 <= i < |a| && a[i] != b[i];
    if forall j: nat :: j < 8 ==> Bit(a[i], j) == Bit(b[i], j) {
      ByteFromBits(a[i], b[i]);
    }
    var j: nat :| j < 8 && Bit(a[i], j) != Bit(b[i], j);
    p := 8 * i + j;
  }

  lemma FirstSet(d: Bits, p: nat) returns (first: nat)
    requires p < |d| && d[p]
    ensures first <= p && d[first] && NoneSet(d[..first])
  {
    first := 0;
    while !d[first]
      invariant first <= p && NoneSet(d[..first])
      decreases p - first
    {
      first := first + 1;
    }
  }

  /** Two different messages of the same length whose differing bits all lie within 32
      consecutive transmitted bits never have the same checksum. */
  lemma BurstDetected(a: seq<bv8>, b: seq<bv8>, start: int)
    requires |a| == |b| && a != b
    requires forall p :: 0 <= p < 8 * |a| && Transmitted(a)[p] != Transmitted(b)[p] ==> start <= p < start + 32
    ensures Checksum(a) != Checksum(b)
  {
    var x, y := Transmitted(a), Transmitted(b);
    var d := Xor(x, y);
    var p := SomeDifference(a, b);
    var first := FirstSet(d, p);
    DifferentRuns(BitsOf(0xFFFF_FFFF), x, y, first);
    RegisterIsRun(0xFFFF_FFFF, x);
    RegisterIsRun(0xFFFF_FFFF, y);
    ComplementInjective(Register(0xFFFF_FFFF, x), Register(0xFFFF_FFFF, y));
  }

  lemma Window(d: Bits, first: nat, size: nat) returns (lead: Bits, burst: Bits, rest: Bits)
    requires first < |d| && 0 < size && d[first] && NoneSet(d[..first])
    requires forall p :: first + size <= p < |d| ==> !d[p]
    ensures d == lead + (burst + rest) && NoneSet(lead) && NoneSet(rest) && 0 < |burst| <= size && burst[0]
  {
    var last := if first + size <= |d| then first + size else |d|;
    lead, burst, rest := d[..first], d[first..last], d[last..];
  }

  lemma DifferentRuns(r: Bits, x: Bits, y: Bits, first: nat)
    requires |r| == 32 && |x| == |y| && first < |x|
    requires var d := Xor(x, y); d[first] && NoneSet(d[..first]) && forall p :: first + 32 <= p < |d| ==> !d[p]
    ensures Run(r, Polynomial(), x) != Run(r, Polynomial(), y)
  {
    var lead, burst, rest := Window(Xor(x, y), first, 32);
    RunLinear(r, r, Polynomial(), x, y);
    BurstFromZero(Xor(r, r), Polynomial(), lead, burst, rest);
    SelfXor(Run(r, Polynomial(), x));
  }

  lemma SelfXor(r: Bits)
    ensures NoneSet(Xor(r, r))
  {
  }

  lemma ComplementInjective(s: Bits32, t: Bits32)
    ensures !s == !t ==> s == t
  {
  }

  /* ---- The frame check sequence ---- */

  // The exponents of the generator (IEEE 802.3, section 3.2.9).
  const EXPONENTS: set<int> := {32, 26, 23, 22, 16, 12, 11, 10, 8, 7, 5, 4, 2, 1, 0}

  // A polynomial over the bits, the coefficient of its highest power first.
  function Generator(): (g: Bits)
    ensures |g| == 33
  {
    seq(33, i => 32 - i in EXPONENTS)
  }

  function Zeros(n: nat): (bits: Bits)
    ensures |bits| == n && NoneSet(bits)
  {
    seq(n, _ => false)
  }

  function Ones(n: nat): (bits: Bits)
    ensures |bits| == n && forall i :: 0 <= i < n ==> bits[i]
  {
    seq(n, _ => true)
  }

  // The product of two polynomials: the second one, shifted, for every power in the first.
  function Product(q: Bits, g: Bits): (product: Bits)
    requires g != []
    ensures |product| == |q| + |g| - 1
    decreases |q|
  {
    if q == [] then Zeros(|g| - 1)
    else Xor((if q[0] then g else Zeros(|g|)) + Zeros(|q| - 1), [false] + Product(q[1..], g))
  }

  // What a polynomial is modulo another: their difference is a multiple of that, and it is of lower degree.
  ghost predicate IsRemainder(dividend: Bits, g: Bits, r: Bits)
    requires |dividend| + 1 >= |g| == |r| + 1
  {
    exists q :: Divides(dividend, g, q, r)
  }

  ghost predicate Divides(dividend: Bits, g: Bits, q: Bits, r: Bits)
    requires |dividend| + 1 >= |g| == |r| + 1
  {
    |q| == |dividend| - |r| && dividend == Xor(Product(q, g), Zeros(|q|) + r)
  }

  /** There is only one. */
  lemma {:induction false} RemainderUnique(dividend: Bits, g: Bits, q: Bits, r: Bits, q': Bits, r': Bits)
    requires |dividend| + 1 >= |g| == |r| + 1 == |r'| + 1 && g[0]
    requires Divides(dividend, g, q, r) && Divides(dividend, g, q', r')
    ensures r == r'
    decreases |q|
  {
    if q == [] {
      assert dividend == Xor(Zeros(|g| - 1), r) && dividend == Xor(Zeros(|g| - 1), r');
      assert forall i :: 0 <= i < |r| ==> r[i] == dividend[i] == r'[i];
    } else {
      assert q[0] == dividend[0] == q'[0];
      LessDivides(dividend, g, q, r);
      LessDivides(dividend, g, q', r');
      RemainderUnique(Less(dividend, g), g, q[1..], r, q'[1..], r');
    }
  }

  // The dividend with its highest power taken off.
  function Less(dividend: Bits, g: Bits): (rest: Bits)
    requires |dividend| >= |g| > 0
    ensures |rest| == |dividend| - 1
  {
    Xor((if dividend[0] then g else Zeros(|g|)) + Zeros(|dividend| - |g|), dividend)[1..]
  }

  lemma LessDivides(dividend: Bits, g: Bits, q: Bits, r: Bits)
    requires |dividend| >= |g| == |r| + 1 && g[0] && Divides(dividend, g, q, r)
    ensures q[0] == dividend[0] && Divides(Less(dividend, g), g, q[1..], r)
  {
    var product, rest := Product(q[1..], g), Zeros(|q| - 1) + r;
    var first := (if q[0] then g else Zeros(|g|)) + Zeros(|q| - 1);
    assert Zeros(|q|) + r == [false] + rest;
    hide Xor;
    FirstTaken(first, product, rest);
    assert first[0] == q[0];
  }

  // A first power with what else there is.
  lemma FirstTaken(first: Bits, product: Bits, rest: Bits)
    requires |first| == |product| + 1 == |rest| + 1
    ensures var dividend := Xor(Xor(first, [false] + product), [false] + rest);
            dividend[0] == first[0] && Xor(first, dividend)[1..] == Xor(product, rest)
  {
    var dividend := Xor(Xor(first, [false] + product), [false] + rest);
    forall i | 0 <= i < |rest|
      ensures Xor(first, dividend)[1..][i] == Xor(product, rest)[i]
    {
      assert ([false] + product)[i + 1] == product[i] && ([false] + rest)[i + 1] == rest[i];
    }
  }

  // What the register is in a division: its bits still count at the front of the message.
  function Dividend(r: Bits, bits: Bits): (dividend: Bits)
    ensures |dividend| == |bits| + |r|
  {
    Xor(bits + Zeros(|r|), r + Zeros(|bits|))
  }

  lemma {:induction false} RunDivides(r: Bits, polynomial: Bits, bits: Bits) returns (q: Bits)
    requires |r| == |polynomial| > 0
    ensures Divides(Dividend(r, bits), [true] + polynomial, q, Run(r, polynomial, bits))
    decreases |bits|
  {
    var g := [true] + polynomial;
    if bits == [] {
      q := [];
      NothingDivides(r, g);
    } else {
      hide Xor, Product, Dividend, Zeros, StepBits;
      var next := StepBits(r, polynomial, bits[0]);
      var q' := RunDivides(next, polynomial, bits[1..]);
      q := [r[0] != bits[0]] + q';
      DividendStep(r, polynomial, bits);
      MoreDivides(Dividend(next, bits[1..]), g, q', Run(next, polynomial, bits[1..]), r[0] != bits[0]);
    }
  }

  lemma NothingDivides(r: Bits, g: Bits)
    requires |g| == |r| + 1
    ensures Divides(Dividend(r, []), g, [], r)
  {
  }

  lemma MoreDivides(dividend: Bits, g: Bits, q: Bits, r: Bits, first: bool)
    requires |dividend| + 1 >= |g| == |r| + 1 && Divides(dividend, g, q, r)
    ensures Divides(Xor((if first then g else Zeros(|g|)) + Zeros(|q|), [false] + dividend), g, [first] + q, r)
  {
    var rest := Zeros(|q|) + r;
    assert ([first] + q)[1..] == q;
    assert Zeros(|q| + 1) + r == [false] + rest;
    hide Xor, Zeros;
    Regrouped((if first then g else Zeros(|g|)) + Zeros(|q|), Product(q, g), rest);
  }

  // One step of the division: the leading bit decides whether the generator is taken off.
  lemma DividendStep(r: Bits, polynomial: Bits, bits: Bits)
    requires |r| == |polynomial| > 0 && bits != []
    ensures var g := [true] + polynomial;
            Dividend(r, bits) == Xor((if r[0] != bits[0] then g else Zeros(|g|)) + Zeros(|bits| - 1),
                                     [false] + Dividend(StepBits(r, polynomial, bits[0]), bits[1..]))
  {
  }

  lemma Regrouped(a: Bits, b: Bits, c: Bits)
    requires |a| == |b| + 1 == |c| + 1
    ensures Xor(a, [false] + Xor(b, c)) == Xor(Xor(a, [false] + b), [false] + c)
  {
  }

  lemma Exponents0To7()
    ensures forall i :: 0 <= i < 8 ==> BitSet(POLYNOMIAL, i) == (31 - i in EXPONENTS)
  {
    MaskedBit(POLYNOMIAL, 0);
    assert Mask(0) == 0x80000000;
    MaskedBit(POLYNOMIAL, 1);
    assert Mask(1) == 0x40000000;
    MaskedBit(POLYNOMIAL, 2);
    assert Mask(2) == 0x20000000;
    MaskedBit(POLYNOMIAL, 3);
    assert Mask(3) == 0x10000000;
    MaskedBit(POLYNOMIAL, 4);
    assert Mask(4) == 0x08000000;
    MaskedBit(POLYNOMIAL, 5);
    assert Mask(5) == 0x04000000;
    MaskedBit(POLYNOMIAL, 6);
    assert Mask(6) == 0x02000000;
    MaskedBit(POLYNOMIAL, 7);
    assert Mask(7) == 0x01000000;
  }

  lemma Mask7Is()
    ensures Mask(7) == 0x01000000
  {
    assert Mask(0) == 0x80000000;
    assert Mask(1) == 0x40000000;
    assert Mask(2) == 0x20000000;
    assert Mask(3) == 0x10000000;
    assert Mask(4) == 0x08000000;
    assert Mask(5) == 0x04000000;
    assert Mask(6) == 0x02000000;
    assert Mask(7) == 0x01000000;
  }

  lemma Exponents8To15()
    ensures forall i :: 8 <= i < 16 ==> BitSet(POLYNOMIAL, i) == (31 - i in EXPONENTS)
  {
    Mask7Is();
    MaskedBit(POLYNOMIAL, 8);
    assert Mask(8) == 0x00800000;
    MaskedBit(POLYNOMIAL, 9);
    assert Mask(9) == 0x00400000;
    MaskedBit(POLYNOMIAL, 10);
    assert Mask(10) == 0x00200000;
    MaskedBit(POLYNOMIAL, 11);
    assert Mask(11) == 0x00100000;
    MaskedBit(POLYNOMIAL, 12);
    assert Mask(12) == 0x00080000;
    MaskedBit(POLYNOMIAL, 13);
    assert Mask(13) == 0x00040000;
    MaskedBit(POLYNOMIAL, 14);
    assert Mask(14) == 0x00020000;
    MaskedBit(POLYNOMIAL, 15);
    assert Mask(15) == 0x00010000;
  }

  lemma Mask15Is()
    ensures Mask(15) == 0x00010000
  {
    Mask7Is();
    assert Mask(8) == 0x00800000;
    assert Mask(9) == 0x00400000;
    assert Mask(10) == 0x00200000;
    assert Mask(11) == 0x00100000;
    assert Mask(12) == 0x00080000;
    assert Mask(13) == 0x00040000;
    assert Mask(14) == 0x00020000;
    assert Mask(15) == 0x00010000;
  }

  lemma Exponents16To23()
    ensures forall i :: 16 <= i < 24 ==> BitSet(POLYNOMIAL, i) == (31 - i in EXPONENTS)
  {
    Mask15Is();
    MaskedBit(POLYNOMIAL, 16);
    assert Mask(16) == 0x00008000;
    MaskedBit(POLYNOMIAL, 17);
    assert Mask(17) == 0x00004000;
    MaskedBit(POLYNOMIAL, 18);
    assert Mask(18) == 0x00002000;
    MaskedBit(POLYNOMIAL, 19);
    assert Mask(19) == 0x00001000;
    MaskedBit(POLYNOMIAL, 20);
    assert Mask(20) == 0x00000800;
    MaskedBit(POLYNOMIAL, 21);
    assert Mask(21) == 0x00000400;
    MaskedBit(POLYNOMIAL, 22);
    assert Mask(22) == 0x00000200;
    MaskedBit(POLYNOMIAL, 23);
    assert Mask(23) == 0x00000100;
  }

  lemma Mask23Is()
    ensures Mask(23) == 0x00000100
  {
    Mask15Is();
    assert Mask(16) == 0x00008000;
    assert Mask(17) == 0x00004000;
    assert Mask(18) == 0x00002000;
    assert Mask(19) == 0x00001000;
    assert Mask(20) == 0x00000800;
    assert Mask(21) == 0x00000400;
    assert Mask(22) == 0x00000200;
    assert Mask(23) == 0x00000100;
  }

  lemma Exponents24To31()
    ensures forall i :: 24 <= i < 32 ==> BitSet(POLYNOMIAL, i) == (31 - i in EXPONENTS)
  {
    Mask23Is();
    MaskedBit(POLYNOMIAL, 24);
    assert Mask(24) == 0x00000080;
    MaskedBit(POLYNOMIAL, 25);
    assert Mask(25) == 0x00000040;
    MaskedBit(POLYNOMIAL, 26);
    assert Mask(26) == 0x00000020;
    MaskedBit(POLYNOMIAL, 27);
    assert Mask(27) == 0x00000010;
    MaskedBit(POLYNOMIAL, 28);
    assert Mask(28) == 0x00000008;
    MaskedBit(POLYNOMIAL, 29);
    assert Mask(29) == 0x00000004;
    MaskedBit(POLYNOMIAL, 30);
    assert Mask(30) == 0x00000002;
    MaskedBit(POLYNOMIAL, 31);
    assert Mask(31) == 0x00000001;
  }

  lemma PolynomialIsGenerator()
    ensures [true] + Polynomial() == Generator()
  {
    hide BitSet;
    Exponents0To7();
    Exponents8To15();
    Exponents16To23();
    Exponents24To31();
  }

  lemma AllOnes(i: nat)
    requires i < 32
    ensures BitSet(0xFFFF_FFFF, i)
  {
    MaskedBit(0xFFFF_FFFF, i);
    MaskNotZero(i);
  }

  lemma MaskNotZero(i: nat)
    requires i < 32
    ensures Mask(i) != 0
  {
    Mask7Is();
    Mask15Is();
    Mask23Is();
    LowestMask();
    MaskBelow(i, 31);
  }

  lemma {:induction false} MaskBelow(i: nat, j: nat)
    requires i <= j && Mask(j) != 0
    ensures Mask(i) != 0
    decreases j
  {
    if i < j {
      ShiftedZero(Mask(j - 1));
      MaskBelow(i, j - 1);
    }
  }

  lemma ShiftedZero(w: Bits32)
    ensures w == 0 ==> w >> 1 == 0
  {
  }

  lemma ComplementTwice(w: Bits32)
    ensures !!w == w
  {
  }

  /** The checksum is the frame check sequence: the complement of the remainder of the message, with its first 32 bits
      complemented, times x^32, modulo the generator. The message's bits are those of its bytes, low bit first. */
  lemma FrameCheckSequence(data: seq<bv8>, bits: Bits)
    requires |bits| == 8 * |data|
    requires forall p :: 0 <= p < |bits| ==> bits[p] == ((data[p / 8] >> (p % 8)) & 1 == 1)
    ensures IsRemainder(Xor(bits + Zeros(32), Ones(32) + Zeros(|bits|)), Generator(), BitsOf(!Checksum(data)))
  {
    assert bits == Transmitted(data);
    hide Transmitted, BitSet, Bit;
    forall i | 0 <= i < 32
      ensures BitSet(0xFFFF_FFFF, i)
    {
      AllOnes(i);
    }
    assert BitsOf(0xFFFF_FFFF) == Ones(32);
    RegisterIsRun(0xFFFF_FFFF, bits);
    ComplementTwice(Register(0xFFFF_FFFF, bits));
    PolynomialIsGenerator();
    var q := RunDivides(Ones(32), Polynomial(), bits);
    assert Divides(Dividend(Ones(32), bits), Generator(), q, BitsOf(!Checksum(data)));
  }
}
