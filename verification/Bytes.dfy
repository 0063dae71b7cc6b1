/**
 Bytes, and the little-endian numbers they spell (libopendmi/src/field-internal.h).
 */
module Bytes {

  type Byte = b: nat | b < 256

  /** 256 to the power of n, one more than the largest number n bytes spell. */
  function Pow256(n: nat): (p: nat)
    ensures p > 0
  {
    if n == 0 then 1 else 256 * Pow256(n - 1)
  }

  /** Number the bytes spell, the least significant byte first. */
  function LeLoad(data: seq<Byte>): nat {
    if data == [] then 0 else data[0] + 256 * LeLoad(data[1..])
  }

  /** The low bytes of a number, the least significant one first. */
  function LeStore(number: nat, length: nat): (data: seq<Byte>)
    ensures |data| == length
  {
    if length == 0 then [] else [number % 256] + LeStore(number / 256, length - 1)
  }

  lemma {:induction false} LoadIsBounded(data: seq<Byte>)
    ensures LeLoad(data) < Pow256(|data|)
  {
    if data != [] {
      LoadIsBounded(data[1..]);
    }
  }

  /** Storing undoes loading. */
  lemma {:induction false} StoreLoad(data: seq<Byte>)
    ensures LeStore(LeLoad(data), |data|) == data
  {
    if data != [] {
      StoreLoad(data[1..]);
      assert LeLoad(data) % 256 == data[0];
      assert LeLoad(data) / 256 == LeLoad(data[1..]);
      assert data == [data[0]] + data[1..];
    }
  }

  /** Loading undoes storing, up to the bytes there is no room for. */
  lemma {:induction false} LoadStore(number: nat, length: nat)
    ensures LeLoad(LeStore(number, length)) == number % Pow256(length)
  {
    if length != 0 {
      var rest := LeStore(number / 256, length - 1);
      LoadStore(number / 256, length - 1);
      assert LeStore(number, length)[1..] == rest;
      ModByProduct(number, Pow256(length - 1));
    }
  }

  lemma ModByProduct(number: nat, p: nat)
    requires p > 0
    ensures number % (256 * p) == number % 256 + 256 * (number / 256 % p)
  {
    var q, r := number / 256 / p, number / 256 % p;
    assert number / 256 == q * p + r;
    assert number == 256 * (q * p + r) + number % 256;
    assert number == q * (256 * p) + (256 * r + number % 256) by {
      assert 256 * (q * p) == q * (256 * p);
    }
    DivisionIsUnique(number, 256 * p, q, 256 * r + number % 256);
  }

  lemma DivisionIsUnique(n: nat, d: nat, q: nat, r: nat)
    requires d > 0 && r < d && n == q * d + r
    ensures n / d == q && n % d == r
  {
    var k := n / d - q;
    assert n == n / d * d + n % d;
    assert k * d == r - n % d by {
      assert k * d == n / d * d - q * d;
    }
    assert 0 < k * d + d && k * d < d;
    if k >= 1 {
      ProductIsAtLeast(k, d);
    }
  }

  lemma ProductIsAtLeast(k: nat, d: nat)
    requires k >= 1
    ensures k * d >= d
  {
  }

  lemma {:induction false} PowIsMonotone(m: nat, n: nat)
    requires m <= n
    ensures Pow256(m) <= Pow256(n)
    decreases n
  {
    if m < n {
      PowIsMonotone(m, n - 1);
    }
  }

  function Zeros(n: nat): (z: seq<Byte>)
    ensures |z| == n
  {
    seq(n, _ => 0)
  }
}
