/** Bytes and little-endian integers, as the container format lays them out. */
module Bytes {

  /** Swift's `UInt8`. */
  type uint8 = x: int | 0 <= x < 256

  /** Swift's `[UInt8]` and `Data`. */
  type Bytes = seq<uint8>

  /** `n` zero bytes (`[UInt8](repeating: 0, count: n)`). */
  function Zeros(n: nat): (r: Bytes)
    ensures |r| == n
    ensures forall i :: 0 <= i < n ==> r[i] == 0
  {
    seq(n, _ => 0)
  }

  /** 256 to the power `n`: one more than the largest `n`-byte unsigned value. */
  function Pow256(n: nat): (r: nat)
    ensures r > 0
  {
    if n == 0 then 1 else 256 * Pow256(n - 1)
  }

  /** The unsigned value of `b` read little-endian: `v |= Int(b[i]) << (8 * i)` over all bytes. */
  function FromLE(b: Bytes): (v: nat)
    ensures v < Pow256(|b|)
  {
    if |b| == 0 then 0 else b[0] + 256 * FromLE(b[1..])
  }

  /** Zero bytes read as zero. */
  lemma {:induction false} FromLEZeros(n: nat)
    ensures FromLE(Zeros(n)) == 0
  {
    if n > 0 {
      assert Zeros(n)[1..] == Zeros(n - 1);
      FromLEZeros(n - 1);
    }
  }

  /** Division with remainder has one answer: used by the arithmetic lemmas below. */
  lemma DivModUnique(x: int, d: int, q: int, r: int)
    requires d > 0 && 0 <= r < d && x == d * q + r
    ensures x / d == q && x % d == r
  {
    var k := q - x / d;
    assert d * k == x % d - r;
    assert k >= 1 ==> d * k >= d;
    assert k <= -1 ==> d * k <= -d;
  }
  /** A number below the modulus is its own remainder. */
  lemma ModSmall(x: int, d: int)
    requires 0 <= x < d
    ensures x % d == x && x / d == 0
  {
    DivModUnique(x, d, 0, x);
  }


  /** Splitting off the low byte of a remainder by `256 * m`. */
  lemma ModLowByte(x: nat, m: nat)
    requires m > 0
    ensures x % (256 * m) == x % 256 + 256 * ((x / 256) % m)
    ensures x / (256 * m) == (x / 256) / m
  {
    var q := x / 256;
    var r0 := x % 256;
    var q2 := q / m;
    var r1 := q % m;
    assert q == m * q2 + r1;
    assert x == 256 * q + r0;
    calc {
      x;
      256 * (m * q2 + r1) + r0;
      { assert 256 * (m * q2 + r1) == (256 * m) * q2 + 256 * r1; }
      (256 * m) * q2 + (256 * r1 + r0);
    }
    assert 0 <= 256 * r1 + r0 < 256 * m by {
      assert r1 <= m - 1;
      assert 256 * r1 <= 256 * (m - 1) == 256 * m - 256;
    }
    DivModUnique(x, 256 * m, q2, 256 * r1 + r0);
  }

  /** The low `n` bytes of `x`, least significant first: byte `i` is `UInt8((x >> (8 * i)) & 0xff)`. */
  function ToLE(x: nat, n: nat): (r: Bytes)
    ensures |r| == n
    ensures FromLE(r) == x % Pow256(n)
  {
    if n == 0 then []
    else
      var rest := ToLE(x / 256, n - 1);
      var r := [x % 256] + rest;
      ModLowByte(x, Pow256(n - 1));
      assert r[1..] == rest;
      r
  }

  /** Byte `i` of `ToLE(x, n)` is `(x >> (8 * i)) & 0xff`, the expression the Swift loops write. */
  lemma {:induction false} ToLEByte(x: nat, n: nat, i: nat)
    requires i < n
    ensures ToLE(x, n)[i] == (x / Pow256(i)) % 256
  {
    if i > 0 {
      var q := x / 256;
      ToLEByte(q, n - 1, i - 1);
      assert ToLE(x, n)[i] == ToLE(q, n - 1)[i - 1];
      var m := Pow256(i - 1);
      ModLowByte(x, m);
      assert x / Pow256(i) == q / m;
    }
  }

  /** Reading back what `ToLE` wrote: an `n`-byte field recovers every value below `256^n`. */
  lemma FromToLE(x: nat, n: nat)
    requires x < Pow256(n)
    ensures FromLE(ToLE(x, n)) == x
  {
  }

  /** Writing what `FromLE` read gives back the same bytes. */
  lemma {:induction false} ToFromLE(b: Bytes)
    ensures ToLE(FromLE(b), |b|) == b
  {
    if |b| > 0 {
      var v := FromLE(b);
      assert v == b[0] + 256 * FromLE(b[1..]);
      DivModUnique(v, 256, FromLE(b[1..]), b[0]);
      ToFromLE(b[1..]);
      assert ToLE(v, |b|) == [v % 256] + ToLE(v / 256, |b| - 1);
    }
  }

  /** Values below `256^n` have different `n`-byte fields. */
  lemma ToLEInjective(a: nat, b: nat, n: nat)
    requires a < Pow256(n) && b < Pow256(n) && a != b
    ensures ToLE(a, n) != ToLE(b, n)
  {
    ModSmall(a, Pow256(n));
    ModSmall(b, Pow256(n));
  }

  /** Products regroup; stated once so the nonlinear step is a single call. */
  lemma MulAssoc(a: int, b: int, c: int)
    ensures a * (b * c) == (a * b) * c
  {
  }

  /** A little-endian field splits into its low `k` bytes and its high bytes. */
  lemma {:induction false} FromLESplit(b: Bytes, k: nat)
    requires k <= |b|
    ensures FromLE(b) == FromLE(b[..k]) + Pow256(k) * FromLE(b[k..])
  {
    if k > 0 {
      FromLESplit(b[1..], k - 1);
      assert b[1..][..k - 1] == b[..k][1..];
      assert b[1..][k - 1..] == b[k..];
      var lo, hi, p := FromLE(b[..k][1..]), FromLE(b[k..]), Pow256(k - 1);
      assert FromLE(b[1..]) == lo + p * hi;
      assert FromLE(b[..k]) == b[0] + 256 * lo;
      assert Pow256(k) == 256 * p;
      MulAssoc(256, p, hi);
      assert FromLE(b) == b[0] + 256 * (lo + p * hi);
    } else {
      assert b[..0] == [] && b[0..] == b;
    }
  }

  /** Reading one more byte adds it at the next power of 256. */
  lemma FromLEAppend(b: Bytes, i: nat)
    requires i < |b|
    ensures FromLE(b[..i + 1]) == FromLE(b[..i]) + b[i] * Pow256(i)
  {
    FromLESplit(b[..i + 1], i);
    assert b[..i + 1][..i] == b[..i];
    assert b[..i + 1][i..] == [b[i]];
    assert FromLE([b[i]]) == b[i] by {
      assert [b[i]][1..] == [];
    }
  }

  /** The powers of 256 the container's fields use: 4-byte lengths, 7 and 8 counter bytes. */
  lemma Pow256Values()
    ensures Pow256(4) == 0x1_0000_0000
    ensures Pow256(7) == 0x100_0000_0000_0000
    ensures Pow256(8) == 0x1_0000_0000_0000_0000
  {
  }
}
