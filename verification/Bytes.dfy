/** Physical memory: bytes, little-endian fields over them, and the copying primitives. */
module Bytes {

  type byte = x: int | 0 <= x < 256

  // ----- little-endian fields

  function Pow256(n: nat): (r: nat)
    ensures r > 0
  {
    if n == 0 then 1 else 256 * Pow256(n - 1)
  }

  lemma Pow256Values()
    ensures Pow256(1) == 0x100 && Pow256(2) == 0x1_0000
    ensures Pow256(4) == 0x1_0000_0000 && Pow256(8) == 0x1_0000_0000_0000_0000
  {
    assert Pow256(3) == 256 * Pow256(2);
    assert Pow256(5) == 256 * Pow256(4);
    assert Pow256(6) == 256 * Pow256(5);
    assert Pow256(7) == 256 * Pow256(6);
  }

  function LeValue(s: seq<byte>): nat {
    if s == [] then 0 else s[0] + 256 * LeValue(s[1..])
  }

  function LeBytes(v: nat, n: nat): (s: seq<byte>)
    ensures |s| == n
  {
    if n == 0 then [] else [v % 256] + LeBytes(v / 256, n - 1)
  }

  lemma {:induction false} LeRoundTrip(v: nat, n: nat)
    requires v < Pow256(n)
    ensures LeValue(LeBytes(v, n)) == v
  {
    if n > 0 {
      LeRoundTrip(v / 256, n - 1);
      assert LeBytes(v, n)[1..] == LeBytes(v / 256, n - 1);
    }
  }

  lemma {:induction false} LeInverse(s: seq<byte>)
    ensures LeBytes(LeValue(s), |s|) == s
  {
    if s != [] {
      LeInverse(s[1..]);
      assert LeValue(s) % 256 == s[0] && LeValue(s) / 256 == LeValue(s[1..]);
      assert s == [s[0]] + s[1..];
    }
  }

  lemma {:induction false} LeBound(s: seq<byte>)
    ensures LeValue(s) < Pow256(|s|)
  {
    if s != [] {
      LeBound(s[1..]);
    }
  }

  // The value of 2, 4 and 8 bytes, the first being the lowest

  lemma TwoBytes(s: seq<byte>)
    requires |s| == 2
    ensures LeValue(s) == s[0] as int + 256 * s[1] as int
  {
    assert LeValue(s[1..]) == s[1];
  }

  lemma FourBytes(s: seq<byte>)
    requires |s| == 4
    ensures LeValue(s) == s[0] as int + 256 * s[1] as int + 0x1_0000 * s[2] as int + 0x100_0000 * s[3] as int
  {
    TwoBytes(s[2..]);
    assert s[1..][1..] == s[2..];
    assert LeValue(s) == s[0] + 256 * LeValue(s[1..]);
    assert LeValue(s[1..]) == s[1] + 256 * LeValue(s[2..]);
  }

  lemma EightBytes(s: seq<byte>)
    requires |s| == 8
    ensures LeValue(s) == LeValue(s[..4]) + 0x1_0000_0000 * LeValue(s[4..])
    ensures LeValue(s[..4]) == s[0] as int + 256 * s[1] as int + 0x1_0000 * s[2] as int + 0x100_0000 * s[3] as int
    ensures LeValue(s[4..]) == s[4] as int + 256 * s[5] as int + 0x1_0000 * s[6] as int + 0x100_0000 * s[7] as int
  {
    hide LeValue;
    FourBytes(s[..4]);
    FourBytes(s[4..]);
    LeCons(s);
    LeCons(s[1..]);
    LeCons(s[2..]);
    LeCons(s[3..]);
    assert s[1..][1..] == s[2..] && s[2..][1..] == s[3..] && s[3..][1..] == s[4..];
  }

  lemma LeCons(s: seq<byte>)
    requires s != []
    ensures LeValue(s) == s[0] + 256 * LeValue(s[1..])
  {
  }

  /** The `n`-byte field at address `a`. */
  function Field(m: seq<byte>, a: nat, n: nat): nat
    requires a + n <= |m|
  {
    LeValue(m[a..a + n])
  }

  // ----- overwriting a stretch

  function Splice(m: seq<byte>, a: nat, s: seq<byte>): (r: seq<byte>)
    requires a + |s| <= |m|
    ensures |r| == |m|
    ensures forall k :: 0 <= k < |m| ==> r[k] == if a <= k < a + |s| then s[k - a] else m[k]
  {
    m[..a] + s + m[a + |s|..]
  }

  /** Store the `n` low bytes of `v`. */
  function Put(m: seq<byte>, a: nat, n: nat, v: nat): (r: seq<byte>)
    requires a + n <= |m|
    ensures |r| == |m|
    ensures forall k :: 0 <= k < |m| && !(a <= k < a + n) ==> r[k] == m[k]
  {
    Splice(m, a, LeBytes(v, n))
  }

  function Zeros(n: nat): (s: seq<byte>)
    ensures |s| == n && forall k :: 0 <= k < n ==> s[k] == 0
  {
    seq(n, _ => 0)
  }

  lemma PutField(m: seq<byte>, a: nat, n: nat, v: nat)
    requires a + n <= |m| && v < Pow256(n)
    ensures Field(Put(m, a, n, v), a, n) == v
  {
    assert Put(m, a, n, v)[a..a + n] == LeBytes(v, n);
    LeRoundTrip(v, n);
  }

  predicate Apart(a: nat, n: nat, b: nat, k: nat) {
    a + n <= b || b + k <= a
  }

  /** Memory outside [lo, hi) is unchanged. */
  ghost predicate SameOutside(m: seq<byte>, m': seq<byte>, lo: nat, hi: nat) {
    |m| == |m'| && forall k :: 0 <= k < |m| && !(lo <= k < hi) ==> m'[k] == m[k]
  }

  lemma NothingChanged(m: seq<byte>, lo: nat, hi: nat)
    ensures SameOutside(m, m, lo, hi)
  {
  }

  lemma SpliceOutside(m: seq<byte>, a: nat, s: seq<byte>, lo: nat, hi: nat)
    requires a + |s| <= |m| && lo <= a && a + |s| <= hi
    ensures SameOutside(m, Splice(m, a, s), lo, hi)
  {
  }

  /** Two changes within the same stretch are one. */
  lemma OutsideTwice(m: seq<byte>, m': seq<byte>, m'': seq<byte>, lo: nat, hi: nat, lo': nat, hi': nat)
    requires SameOutside(m, m', lo, hi) && SameOutside(m', m'', lo', hi') && lo <= lo' && hi' <= hi
    ensures SameOutside(m, m'', lo, hi)
  {
  }

  lemma SpliceElsewhere(m: seq<byte>, a: nat, s: seq<byte>, b: nat, n: nat)
    requires a + |s| <= |m| && b + n <= |m| && Apart(a, |s|, b, n)
    ensures Field(Splice(m, a, s), b, n) == Field(m, b, n)
  {
    assert Splice(m, a, s)[b..b + n] == m[b..b + n];
  }

  lemma PutElsewhere(m: seq<byte>, a: nat, k: nat, v: nat, b: nat, n: nat)
    requires a + k <= |m| && b + n <= |m| && Apart(a, k, b, n)
    ensures Field(Put(m, a, k, v), b, n) == Field(m, b, n)
  {
    SpliceElsewhere(m, a, LeBytes(v, k), b, n);
  }

  /** Writing inside a window of memory is writing to the window. */
  lemma SpliceNested(m: seq<byte>, base: nat, window: seq<byte>, o: nat, s: seq<byte>)
    requires base + |window| <= |m| && o + |s| <= |window|
    ensures Splice(Splice(m, base, window), base + o, s) == Splice(m, base, Splice(window, o, s))
  {
  }

  /** Two adjacent stretches written one after the other. */
  lemma SpliceParts(m: seq<byte>, a: nat, s: seq<byte>, t: seq<byte>)
    requires a + |s| + |t| <= |m|
    ensures Splice(Splice(m, a, s), a + |s|, t) == Splice(m, a, s + t)
  {
  }

  lemma SpliceAgain(m: seq<byte>, base: nat, w: seq<byte>, w': seq<byte>)
    requires base + |w| <= |m| && |w| == |w'|
    ensures Splice(Splice(m, base, w), base, w') == Splice(m, base, w')
  {
  }

  /** What was written to a window is what is in it. */
  lemma WindowOf(m: seq<byte>, base: nat, w: seq<byte>)
    requires base + |w| <= |m|
    ensures Splice(m, base, w)[base..base + |w|] == w
  {
  }

  lemma PutNested(m: seq<byte>, base: nat, window: seq<byte>, o: nat, n: nat, v: nat)
    requires base + |window| <= |m| && o + n <= |window|
    ensures Put(Splice(m, base, window), base + o, n, v) == Splice(m, base, Put(window, o, n, v))
  {
    SpliceNested(m, base, window, o, LeBytes(v, n));
  }

  lemma PutTwice(m: seq<byte>, a: nat, n: nat, v: nat, v': nat)
    requires a + n <= |m|
    ensures Put(Put(m, a, n, v), a, n, v') == Put(m, a, n, v')
  {
  }

  lemma SubStretch(m: seq<byte>, a: nat, n: nat, o: nat, k: nat)
    requires o + k <= n && a + n <= |m|
    ensures m[a + o..a + o + k] == m[a..a + n][o..o + k]
  {
    var s, s' := m[a + o..a + o + k], m[a..a + n][o..o + k];
    assert forall j :: 0 <= j < k ==> s[j] == m[a + o + j] == s'[j];
    assert s == s';
  }

  lemma SubField(m: seq<byte>, a: nat, n: nat, o: nat, k: nat)
    requires o + k <= n && a + n <= |m|
    ensures Field(m, a + o, k) == Field(m[a..a + n], o, k)
  {
    SubStretch(m, a, n, o, k);
  }

  /** Memories that begin alike are alike in every stretch of that beginning. */
  lemma PrefixStretch(m: seq<byte>, m': seq<byte>, n: nat, a: nat, k: nat)
    requires n <= |m| && n <= |m'| && m[..n] == m'[..n] && a + k <= n
    ensures m[a..a + k] == m'[a..a + k]
  {
    forall j | a <= j < a + k ensures m[j] == m'[j] {
      assert m[j] == m[..n][j] && m'[j] == m'[..n][j];
    }
  }

  /** Memories that agree on a stretch agree on every field inside it. */
  lemma FieldInStretch(m: seq<byte>, m': seq<byte>, a: nat, n: nat, b: nat, k: nat)
    requires a <= b && b + k <= a + n <= |m| && a + n <= |m'|
    requires m[a..a + n] == m'[a..a + n]
    ensures Field(m, b, k) == Field(m', b, k)
  {
    SubField(m, a, n, b - a, k);
    SubField(m', a, n, b - a, k);
  }

  // ----- the copying primitives, in place

  /** mon_memcpy from outside the destination. */
  method CopyIn(mem: array<byte>, dest: nat, data: seq<byte>)
    requires dest + |data| <= mem.Length
    modifies mem
    ensures mem[..] == Splice(old(mem[..]), dest, data)
  {
    for i := 0 to |data|
      invariant forall k :: 0 <= k < mem.Length ==>
                  mem[k] == if dest <= k < dest + i then data[k - dest] else old(mem[k])
    {
      mem[dest + i] := data[i];
    }
  }

  /** zero_mem and mon_memset with 0. */
  method ZeroFill(mem: array<byte>, dest: nat, count: nat)
    requires dest + count <= mem.Length
    modifies mem
    ensures mem[..] == Splice(old(mem[..]), dest, Zeros(count))
  {
    for i := 0 to count
      invariant forall k :: 0 <= k < mem.Length ==>
                  mem[k] == if dest <= k < dest + i then 0 else old(mem[k])
    {
      mem[dest + i] := 0;
    }
  }

  /** An aligned or unaligned store of an `n`-byte integer. */
  method Store(mem: array<byte>, dest: nat, n: nat, v: nat)
    requires dest + n <= mem.Length
    modifies mem
    ensures mem[..] == Put(old(mem[..]), dest, n, v)
  {
    CopyIn(mem, dest, LeBytes(v, n));
  }
}
