/**
 * Little-endian byte strings and the integer arithmetic behind them. Both the
 * hosts the compiler runs on and the eBPF stack store multi-byte values least
 * significant byte first.
 */
module Bytes {
  type Byte = x: int | 0 <= x < 0x100

  function Pow256(n: nat): (r: nat)
    ensures r > 0
  {
    if n == 0 then 1 else 256 * Pow256(n - 1)
  }

  /** The low `n` bytes of `x`, least significant first (`x` taken modulo 256^n). */
  function LeBytes(x: int, n: nat): (r: seq<Byte>)
    ensures |r| == n
    decreases n
  {
    if n == 0 then [] else [x % 256] + LeBytes(x / 256, n - 1)
  }

  /** The unsigned value of a little-endian byte string. */
  function LeValue(bs: seq<Byte>): (v: nat)
    ensures v < Pow256(|bs|)
  {
    if bs == [] then 0
    else
      var rest := LeValue(bs[1..]);
      assert bs[0] + 256 * rest <= 255 + 256 * (Pow256(|bs| - 1) - 1);
      bs[0] + 256 * rest
  }

  /** Multiplication by a non-negative factor is monotone. */
  lemma MulMono(a: int, b: int, c: int)
    requires a >= 0 && b <= c
    ensures a * b <= a * c
  {
    assert a * c - a * b == a * (c - b);
  }

  /** Euclidean division is determined by any decomposition with a remainder in range. */
  lemma DivModUnique(x: int, m: int, q: int, r: int)
    requires m > 0 && x == q * m + r && 0 <= r < m
    ensures x / m == q && x % m == r
  {
    var q', r' := x / m, x % m;
    assert x == m * q' + r';
    if q > q' {
      MulMono(m, q' + 1, q);
    } else if q < q' {
      MulMono(m, q + 1, q');
    }
  }

  lemma MulAssoc(a: int, b: int, c: int)
    ensures a * (b * c) == (a * b) * c
  {
  }

  lemma MulDistrib(a: int, b: int, c: int)
    ensures a * (b + c) == a * b + a * c
  {
  }

  /** Splitting a modulus `a * b` into a low digit modulo `a` and a high digit modulo `b`. */
  lemma ModSplit(x: int, a: int, b: int)
    requires a > 0 && b > 0
    ensures a * b > 0
    ensures x % (a * b) == x % a + a * ((x / a) % b)
    ensures x / (a * b) == (x / a) / b
  {
    var q, r := x / a, x % a;
    var q2, r2 := q / b, q % b;
    var ab := a * b;
    MulMono(a, 1, b);
    assert x == a * q + r;
    assert q == b * q2 + r2;
    assert a * q == ab * q2 + a * r2 by {
      MulDistrib(a, b * q2, r2);
      MulAssoc(a, b, q2);
    }
    MulMono(a, r2, b - 1);
    MulDistrib(a, b, -1);
    assert 0 <= a * r2 + r < ab;
    DivModUnique(x, ab, q2, a * r2 + r);
  }

  /** Decoding an encoding gives back the value modulo 256^n. */
  lemma {:induction false} LeRoundTrip(x: int, n: nat)
    ensures LeValue(LeBytes(x, n)) == x % Pow256(n)
    decreases n
  {
    if n > 0 {
      LeRoundTrip(x / 256, n - 1);
      ModSplit(x, 256, Pow256(n - 1));
      assert LeBytes(x, n)[1..] == LeBytes(x / 256, n - 1);
    }
  }

  /** Encoding a decoded byte string gives back the byte string. */
  lemma {:induction false} LeBytesOfValue(bs: seq<Byte>)
    ensures LeBytes(LeValue(bs), |bs|) == bs
  {
    if bs != [] {
      var v, rest := LeValue(bs), LeValue(bs[1..]);
      DivModUnique(v, 256, rest, bs[0]);
      LeBytesOfValue(bs[1..]);
    }
  }

  /** The encoding of `x` depends only on `x` modulo 256^n. */
  lemma {:induction false} LeBytesMod(x: int, y: int, n: nat)
    requires x % Pow256(n) == y % Pow256(n)
    ensures LeBytes(x, n) == LeBytes(y, n)
    decreases n
  {
    if n > 0 {
      var p := Pow256(n - 1);
      ModSplit(x, 256, p);
      ModSplit(y, 256, p);
      var m := x % (256 * p);
      DivModUnique(m, 256, (x / 256) % p, x % 256);
      DivModUnique(m, 256, (y / 256) % p, y % 256);
      LeBytesMod(x / 256, y / 256, n - 1);
    }
  }

  /** The encoding on `a + b` bytes is the low `a` bytes followed by the next `b`. */
  lemma {:induction false} LeBytesSplit(x: int, a: nat, b: nat)
    ensures LeBytes(x, a + b) == LeBytes(x, a) + LeBytes(x / Pow256(a), b)
    decreases a
  {
    if a > 0 {
      LeBytesSplit(x / 256, a - 1, b);
      ModSplit(x, 256, Pow256(a - 1));
    }
  }
}
