/** Machine-word bounds and sizes shared by the whole model. */
module Words {
  const TWO_32: nat := 0x1_0000_0000
  const TWO_64: nat := 0x1_0000_0000_0000_0000

  const PAGE: nat := 4096

  /** Division with remainder is unique. */
  lemma {:induction false} Remainder(n: int, r: nat, m: nat)
    requires r < m
    ensures (n * m + r) % m == r && (n * m + r) / m == n
  {
    var x := n * m + r;
    var d := n - x / m;
    assert d * m == x % m - r;
    assert d >= 1 ==> d * m >= m;
    assert d <= -1 ==> d * m <= 0 - m;
  }

  lemma Unwrapped(x: nat)
    requires x < TWO_32
    ensures x % TWO_32 == x
  {
  }

  lemma MultipleOf(n: int, m: nat)
    requires m > 0
    ensures (n * m) % m == 0
  {
    Remainder(n, 0, m);
  }

  /** A multiple of the modulus can be dropped. */
  lemma DropMultiple(x: int, n: int, m: nat)
    requires m > 0
    ensures (x + n * m) % m == x % m
  {
    assert x + n * m == (x / m + n) * m + x % m;
    Remainder(x / m + n, x % m, m);
  }

  datatype Option<T> = None | Some(value: T)
}
