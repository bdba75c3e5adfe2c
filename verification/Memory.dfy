/** Byte-addressed memory with little-endian 32-bit words, as the allocator sees it. */
module Memory {

  import opened Machine

  // What is at every address.
  type Bytes = int -> Octet

  // Two memories that agree on [lo, hi).
  ghost predicate Same(m: Bytes, m': Bytes, lo: int, hi: int) {
    forall x :: lo <= x < hi ==> m(x) == m'(x)
  }

  // Two memories that agree everywhere else.
  ghost predicate SameBut(m: Bytes, m': Bytes, lo: int, hi: int) {
    forall x :: !(lo <= x < hi) ==> m(x) == m'(x)
  }

  // The n bytes at to are those that were at from.
  ghost predicate Copied(m: Bytes, from: int, m': Bytes, to: int, n: int) {
    forall y :: to <= y < to + n ==> m'(y) == m(from + (y - to))
  }

  // The n bytes at a are zero.
  ghost predicate Zero(m: Bytes, a: int, n: int) {
    forall y :: a <= y < a + n ==> m(y) == 0
  }

  function Load(m: Bytes, a: int): (v: int)
    ensures 0 <= v < UINT32
  {
    m(a) + 0x100 * m(a + 1) + 0x1_0000 * m(a + 2) + 0x100_0000 * m(a + 3)
  }

  function ByteOf(v: int, i: int): Octet
    requires 0 <= v
  {
    if i == 0 then v % 0x100
    else if i == 1 then v / 0x100 % 0x100
    else if i == 2 then v / 0x1_0000 % 0x100
    else v / 0x100_0000 % 0x100
  }

  function Store(m: Bytes, a: int, v: int): Bytes
    requires 0 <= v
  {
    (x: int) => if a <= x < a + 4 then ByteOf(v, x - a) else m(x)
  }

  function StoreByte(m: Bytes, a: int, v: Octet): Bytes {
    (x: int) => if x == a then v else m(x)
  }

  // A 32-bit load and a 32-bit store: four bytes move at once.
  function CopyWord(m: Bytes, to: int, from: int): Bytes {
    (x: int) => if to <= x < to + 4 then m(from + (x - to)) else m(x)
  }

  lemma ByteStored(m: Bytes, a: int, v: Octet, lo: int, hi: int)
    requires lo <= a < hi
    ensures StoreByte(m, a, v)(a) == v && SameBut(m, StoreByte(m, a, v), a, a + 1)
            && SameBut(m, StoreByte(m, a, v), lo, hi)
  {
  }

  lemma Digits(v: int)
    requires 0 <= v < UINT32
    ensures ByteOf(v, 0) + 0x100 * ByteOf(v, 1) + 0x1_0000 * ByteOf(v, 2) + 0x100_0000 * ByteOf(v, 3) == v
  {
    assert v / 0x1_0000 == v / 0x100 / 0x100;
    assert v / 0x100_0000 == v / 0x1_0000 / 0x100;
  }

  lemma LoadStored(m: Bytes, a: int, v: int)
    requires 0 <= v < UINT32
    ensures Load(Store(m, a, v), a) == v
    ensures SameBut(m, Store(m, a, v), a, a + 4)
  {
    hide ByteOf;
    Digits(v);
    var m' := Store(m, a, v);
    assert m'(a) == ByteOf(v, 0) && m'(a + 1) == ByteOf(v, 1);
    assert m'(a + 2) == ByteOf(v, 2) && m'(a + 3) == ByteOf(v, 3);
  }

  lemma LoadSame(m: Bytes, m': Bytes, a: int)
    requires Same(m, m', a, a + 4)
    ensures Load(m, a) == Load(m', a)
  {
  }

  /* ---- Steps of the fill and copy loops ---- */

  lemma LoopStart(m: Bytes, a: int, from: int)
    ensures SameBut(m, m, a, a) && Zero(m, a, 0) && Copied(m, from, m, a, 0)
  {
  }

  lemma ZeroWord(m: Bytes, m': Bytes, a: int, n: int)
    requires 0 <= n && SameBut(m, m', a, a + n) && Zero(m', a, n)
    ensures var m'' := Store(m', a + n, 0); SameBut(m, m'', a, a + (n + 4)) && Zero(m'', a, n + 4)
  {
    assert ByteOf(0, 0) == 0 && ByteOf(0, 1) == 0 && ByteOf(0, 2) == 0 && ByteOf(0, 3) == 0;
    forall i | 0 <= i < 4
      ensures ByteOf(0, i) == 0
    {
    }
  }

  lemma ZeroByte(m: Bytes, m': Bytes, a: int, n: int)
    requires 0 <= n && SameBut(m, m', a, a + n) && Zero(m', a, n)
    ensures var m'' := StoreByte(m', a + n, 0); SameBut(m, m'', a, a + (n + 1)) && Zero(m'', a, n + 1)
  {
  }

  // The source lies apart from the target as far as the bytes that matter go.
  lemma CopiedWord(m: Bytes, m': Bytes, from: int, to: int, n: int, kept: int, count: int)
    requires 0 <= n && n + 4 <= count && kept <= count && (from + kept <= to || to + count <= from)
    requires SameBut(m, m', to, to + n) && Copied(m, from, m', to, Min(n, kept))
    ensures var m'' := CopyWord(m', to + n, from + n);
      SameBut(m, m'', to, to + (n + 4)) && Copied(m, from, m'', to, Min(n + 4, kept))
  {
  }

  lemma CopiedByte(m: Bytes, m': Bytes, from: int, to: int, n: int, kept: int, count: int)
    requires 0 <= n && n + 1 <= count && kept <= count && (from + kept <= to || to + count <= from)
    requires SameBut(m, m', to, to + n) && Copied(m, from, m', to, Min(n, kept))
    ensures var m'' := StoreByte(m', to + n, m'(from + n));
      SameBut(m, m'', to, to + (n + 1)) && Copied(m, from, m'', to, Min(n + 1, kept))
  {
  }
}
