/**
 Bytes, the fixed-size byte strings of the EVMC interface, and their reading as
 big-endian naturals.  A C shift by 8*k is a multiplication by 256^k here, and an OR of
 byte lanes that do not overlap is an addition.
 */
module Bytes {

  type byte = b: nat | b < 256

  /** evmc_bytes32 / evmc_uint256be. */
  type Word = w: seq<byte> | |w| == 32 witness seq(32, _ => 0)

  /** evmc_address. */
  type Address = a: seq<byte> | |a| == 20 witness seq(20, _ => 0)

  datatype Option<+T> = None | Some(value: T)

  function Zeros(n: nat): (z: seq<byte>)
    ensures |z| == n
  {
    seq(n, _ => 0)
  }

  const ZERO_WORD: Word := Zeros(32)

  function Pow256(n: nat): (p: nat)
    ensures p > 0
  {
    if n == 0 then 1 else 256 * Pow256(n - 1)
  }

  /** The big-endian value of a byte string. */
  function Value(s: seq<byte>): nat {
    if s == [] then 0 else 256 * Value(s[..|s| - 1]) + s[|s| - 1]
  }

  /** The n low-order bytes of v, most significant first. */
  function Encode(n: nat, v: nat): (s: seq<byte>)
    ensures |s| == n
  {
    if n == 0 then [] else Encode(n - 1, v / 256) + [v % 256]
  }

  lemma {:induction false} ValueBound(s: seq<byte>)
    ensures Value(s) < Pow256(|s|)
  {
    if s != [] {
      ValueBound(s[..|s| - 1]);
    }
  }

  lemma {:induction false} EncodeValue(s: seq<byte>)
    ensures Encode(|s|, Value(s)) == s
  {
    if s != [] {
      EncodeValue(s[..|s| - 1]);
    }
  }

  /** Big-endian values of strings of one length are equal only if the strings are. */
  lemma ValueInjective(a: seq<byte>, b: seq<byte>)
    requires |a| == |b| && Value(a) == Value(b)
    ensures a == b
  {
    EncodeValue(a);
    EncodeValue(b);
  }

  lemma {:induction false} ValueConcat(a: seq<byte>, b: seq<byte>)
    ensures Value(a + b) == Value(a) * Pow256(|b|) + Value(b)
  {
    if b == [] {
      assert a + b == a;
    } else {
      var front, last := b[..|b| - 1], b[|b| - 1];
      assert (a + b)[..|a + b| - 1] == a + front;
      ValueConcat(a, front);
      assert 256 * (Value(a) * Pow256(|front|)) == Value(a) * Pow256(|b|);
    }
  }

  lemma {:induction false} ValueZeros(n: nat)
    ensures Value(Zeros(n)) == 0
  {
    if n > 0 {
      ValueZeros(n - 1);
      assert Zeros(n)[..n - 1] == Zeros(n - 1);
    }
  }

  /** Left padding with zeros keeps the value. */
  lemma {:induction false} ValueLeftPad(n: nat, s: seq<byte>)
    ensures Value(Zeros(n) + s) == Value(s)
  {
    ValueConcat(Zeros(n), s);
    ValueZeros(n);
  }

  /** The low n bytes hold the value modulo 256^n. */
  lemma {:induction false} ValueSuffix(s: seq<byte>, n: nat)
    requires n <= |s|
    ensures Value(s[|s| - n..]) == Value(s) % Pow256(n)
  {
    var hi, lo := s[..|s| - n], s[|s| - n..];
    assert s == hi + lo;
    ValueConcat(hi, lo);
    ValueBound(lo);
    ModUnique(Value(s), Pow256(n), Value(hi), Value(lo));
  }

  lemma ModUnique(x: nat, m: nat, q: nat, r: nat)
    requires r < m && x == q * m + r
    ensures x % m == r && x / m == q
  {
    var d := x / m - q;
    assert x == (x / m) * m + x % m;
    assert d * m == r - x % m;
    MultipleInRange(d, m);
  }

  lemma MultipleInRange(d: int, m: int)
    requires -m < d * m < m
    ensures d == 0
  {
  }

  lemma PowersOf256()
    ensures Pow256(4) == 0x1_0000_0000
    ensures Pow256(8) == 0x1_0000_0000_0000_0000
    ensures Pow256(20) == 0x1_0000_0000_0000_0000_0000_0000_0000_0000_0000_0000
    ensures Pow256(32) == 0x1_0000_0000_0000_0000_0000_0000_0000_0000_0000_0000_0000_0000_0000_0000_0000_0000
  {
    assert Pow256(4) == 0x1_0000_0000;
    PowAdd(4, 4);
    PowAdd(8, 8);
    PowAdd(16, 4);
    PowAdd(16, 16);
  }

  lemma {:induction false} PowAdd(m: nat, n: nat)
    ensures Pow256(m + n) == Pow256(m) * Pow256(n)
  {
    if n > 0 {
      PowAdd(m, n - 1);
      assert Pow256(m) * Pow256(n) == 256 * (Pow256(m) * Pow256(n - 1));
    }
  }
}
