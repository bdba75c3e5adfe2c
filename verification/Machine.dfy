/** The machine's integers, and facts about whole division that several modules need. */
module Machine {

  const UINT32: int := 0x1_0000_0000
  const INT_MAX: int := 0x7FFF_FFFF

  type Word = w: int | 0 <= w < UINT32
  type Half = h: int | 0 <= h < 0x1_0000
  type Octet = b: int | 0 <= b < 0x100

  datatype Option<T> = None | Some(value: T)

  // Unsigned 32-bit arithmetic.
  function Wrap(x: int): Word {
    x % UINT32
  }

  lemma NoWrap(x: int)
    requires 0 <= x < UINT32
    ensures Wrap(x) == x
  {
  }

  function Abs(x: int): nat {
    if x < 0 then -x else x
  }

  function Min(a: int, b: int): int {
    if a < b then a else b
  }

  function Max(a: int, b: int): int {
    if a < b then b else a
  }

  lemma Larger(d: nat, k: int)
    requires k >= 1
    ensures d * k >= d
  {
  }

  /** Quotient and remainder are the only ones there are. */
  lemma Unique(n: int, d: nat, q: int, r: int)
    requires 0 <= r < d && n == d * q + r
    ensures n / d == q && n % d == r
  {
    var q' := n / d;
    assert n == d * q' + n % d;
    assert d * (q - q') == n % d - r;
    if q - q' >= 1 { Larger(d, q - q'); }
    if q - q' <= -1 { Larger(d, q' - q); }
  }
}
