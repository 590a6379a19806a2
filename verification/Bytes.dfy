/** Bytes, pages and the little-endian integers that every on-disk structure is made of. */
module Bytes {

  type byte = x: int | 0 <= x < 256

  const PAGE_SIZE: nat := 8192
  const INVALID_PAGE_ID: nat := 0xFFFF_FFFF

  datatype Option<+T> = None | Some(value: T)

  function Zeros(n: nat): (r: seq<byte>)
    ensures |r| == n && forall k :: 0 <= k < n ==> r[k] == 0
  {
    seq(n, k => 0)
  }

  function Pow256(n: nat): (r: nat)
    ensures r > 0
  {
    if n == 0 then 1 else 256 * Pow256(n - 1)
  }

  lemma PowEight()
    ensures Pow256(4) == 0x1_0000_0000 && Pow256(8) == 0x1_0000_0000_0000_0000
  {
    assert Pow256(2) == 0x1_0000;
    assert Pow256(4) == 256 * (256 * Pow256(2));
    assert Pow256(6) == 256 * (256 * Pow256(4));
    assert Pow256(8) == 256 * (256 * Pow256(6));
  }

  /** The low `n` bytes of `x`, least significant first. */
  function LE(x: nat, n: nat): (r: seq<byte>)
    ensures |r| == n
    decreases n
  {
    if n == 0 then [] else [x % 256] + LE(x / 256, n - 1)
  }

  function FromLE(b: seq<byte>): nat
  {
    if b == [] then 0 else b[0] + 256 * FromLE(b[1..])
  }

  /** Writing an integer into `n` bytes keeps exactly its value modulo 256^n. */
  lemma {:induction false} LERoundTrip(x: nat, n: nat)
    requires x < Pow256(n)
    ensures FromLE(LE(x, n)) == x
    decreases n
  {
    if n > 0 {
      assert x / 256 < Pow256(n - 1);
      LERoundTrip(x / 256, n - 1);
      assert LE(x, n)[1..] == LE(x / 256, n - 1);
    }
  }

  lemma {:induction false} FromLEBound(b: seq<byte>)
    ensures FromLE(b) < Pow256(|b|)
  {
    if b != [] {
      FromLEBound(b[1..]);
    }
  }

  lemma {:induction false} FromLEInverse(b: seq<byte>)
    ensures LE(FromLE(b), |b|) == b
  {
    if b != [] {
      FromLEInverse(b[1..]);
      assert FromLE(b) % 256 == b[0] && FromLE(b) / 256 == FromLE(b[1..]);
    }
  }

  // ----- Digits -----

  function Power(base: nat, k: nat): nat {
    if k == 0 then 1 else base * Power(base, k - 1)
  }

  lemma {:induction false} PowerPositive(base: nat, k: nat)
    requires base > 0
    ensures Power(base, k) > 0
  {
    if k > 0 {
      PowerPositive(base, k - 1);
    }
  }

  /** The digit of `x` of weight `base` to the `k`. */
  function Digit(x: nat, base: nat, k: nat): nat
    requires base > 0
  {
    PowerPositive(base, k);
    x / Power(base, k) % base
  }

  lemma Product(m: nat, d: nat)
    requires d > 0
    ensures m * d >= m
  {
    assert m * d == m * (d - 1) + m;
  }

  lemma Multiple(m: nat, d: int)
    ensures d > 0 ==> m * d >= m
    ensures d < 0 ==> m * d <= -(m as int)
  {
    if d > 0 {
      Product(m, d);
    } else if d < 0 {
      Product(m, -d);
      assert m * d == -(m * (-d));
    }
  }

  lemma Quotient(x: nat, m: nat, s: nat, r: nat)
    requires m > 0 && x == m * s + r && r < m
    ensures x / m == s
  {
    var q, t := x / m, x % m;
    assert x == m * q + t;
    assert m * (q - s) == m * q - m * s;
    Multiple(m, q - s);
  }

  lemma Regroup(a: nat, b: nat, s: nat, u: nat, r: nat)
    ensures a * (b * s + u) + r == (a * b) * s + (a * u + r)
  {
    assert a * (b * s + u) == a * (b * s) + a * u;
    assert a * (b * s) == (a * b) * s;
  }

  lemma BelowProduct(a: nat, b: nat, u: nat, r: nat)
    requires u < b && r < a
    ensures a * u + r < a * b
  {
    assert a * b == a * (u + (b - u)) == a * u + a * (b - u);
    Product(a, b - u);
  }

  lemma DivParts(x: nat, a: nat, b: nat, q: nat, r: nat, s: nat, u: nat)
    requires a > 0 && b > 0 && x == a * q + r && r < a && q == b * s + u && u < b
    ensures a * b > 0 && x / (a * b) == s
  {
    Regroup(a, b, s, u, r);
    BelowProduct(a, b, u, r);
    Product(a, b);
    Quotient(x, a * b, s, a * u + r);
  }

  lemma DivTwice(x: nat, a: nat, b: nat)
    requires a > 0 && b > 0
    ensures a * b > 0 && x / (a * b) == x / a / b
  {
    DivParts(x, a, b, x / a, x % a, x / a / b, x / a % b);
  }

  lemma DigitStep(x: nat, base: nat, k: nat)
    requires base > 0 && k > 0
    ensures Digit(x, base, k) == Digit(x / base, base, k - 1)
  {
    PowerPositive(base, k - 1);
    DivTwice(x, base, Power(base, k - 1));
  }

  /** A little-endian integer: byte `k` has weight 256 to the `k`. */
  lemma {:induction false} LEByte(x: nat, n: nat, k: nat)
    requires k < n
    ensures LE(x, n)[k] as nat == Digit(x, 256, k)
    decreases n
  {
    if k > 0 {
      DigitStep(x, 256, k);
      LEByte(x / 256, n - 1, k - 1);
    } else {
      assert Power(256, 0) == 1;
    }
  }

  // ----- Fields -----

  /** The two-byte field at position `o`. */
  function U16At(p: seq<byte>, o: nat): (r: nat)
    requires o + 2 <= |p|
    ensures r < 0x1_0000
  {
    p[o] as int + 256 * (p[o + 1] as int)
  }

  function U32At(p: seq<byte>, o: nat): (r: nat)
    requires o + 4 <= |p|
    ensures r < 0x1_0000_0000
  {
    U16At(p, o) + 0x1_0000 * U16At(p, o + 2)
  }

  ghost predicate Distinct<T>(s: seq<T>) {
    forall i, j :: 0 <= i < j < |s| ==> s[i] != s[j]
  }

  lemma SliceOf(row: seq<byte>, p: nat, part: seq<byte>, i: nat, n: nat)
    requires p + |part| <= |row| && row[p..p + |part|] == part && i + n <= |part|
    ensures row[p + i..p + i + n] == part[i..i + n]
  {
    var l, r := part[i..i + n], row[p + i..p + i + n];
    assert forall k :: 0 <= k < n ==> l[k] == row[p..p + |part|][i + k] == row[p + (i + k)] == r[k];
  }
}
