/**
 The chunked comparison operators of include/evmc/evmc.hpp on `address` and `bytes32`,
 the byte loop of include/evmc/bytes.hpp, and the order of the big-endian integers: all
 three are the same total order.
 */
module WordOrder {
  import opened Bytes

  // ---- Loads ----

  function Load64be(s: seq<byte>, i: nat): nat
    requires i + 8 <= |s|
  {
    0x100_0000_0000_0000 * (s[i] as nat) + 0x1_0000_0000_0000 * (s[i + 1] as nat) + 0x100_0000_0000 * (s[i + 2] as nat)
    + 0x1_0000_0000 * (s[i + 3] as nat) + 0x100_0000 * (s[i + 4] as nat) + 0x1_0000 * (s[i + 5] as nat)
    + 0x100 * (s[i + 6] as nat) + s[i + 7]
  }

  function Load64le(s: seq<byte>, i: nat): nat
    requires i + 8 <= |s|
  {
    s[i] + 0x100 * (s[i + 1] as nat) + 0x1_0000 * (s[i + 2] as nat) + 0x100_0000 * (s[i + 3] as nat)
    + 0x1_0000_0000 * (s[i + 4] as nat) + 0x100_0000_0000 * (s[i + 5] as nat) + 0x1_0000_0000_0000 * (s[i + 6] as nat)
    + 0x100_0000_0000_0000 * (s[i + 7] as nat)
  }

  function Load32be(s: seq<byte>, i: nat): nat
    requires i + 4 <= |s|
  {
    0x100_0000 * (s[i] as nat) + 0x1_0000 * (s[i + 1] as nat) + 0x100 * (s[i + 2] as nat) + s[i + 3]
  }

  function Load32le(s: seq<byte>, i: nat): nat
    requires i + 4 <= |s|
  {
    s[i] + 0x100 * (s[i + 1] as nat) + 0x1_0000 * (s[i + 2] as nat) + 0x100_0000 * (s[i + 3] as nat)
  }

  // ---- The operators ----

  predicate AddressEqual(a: Address, b: Address) {
    Load64le(a, 0) == Load64le(b, 0) && Load64le(a, 8) == Load64le(b, 8) && Load32le(a, 16) == Load32le(b, 16)
  }

  predicate AddressLess(a: Address, b: Address) {
    || Load64be(a, 0) < Load64be(b, 0)
    || (Load64be(a, 0) == Load64be(b, 0)
        && (|| Load64be(a, 8) < Load64be(b, 8)
            || (Load64be(a, 8) == Load64be(b, 8) && Load32be(a, 16) < Load32be(b, 16))))
  }

  predicate WordEqual(a: Word, b: Word) {
    Load64le(a, 0) == Load64le(b, 0) && Load64le(a, 8) == Load64le(b, 8)
    && Load64le(a, 16) == Load64le(b, 16) && Load64le(a, 24) == Load64le(b, 24)
  }

  predicate WordLess(a: Word, b: Word) {
    || Load64be(a, 0) < Load64be(b, 0)
    || (Load64be(a, 0) == Load64be(b, 0)
        && (|| Load64be(a, 8) < Load64be(b, 8)
            || (Load64be(a, 8) == Load64be(b, 8)
                && (|| Load64be(a, 16) < Load64be(b, 16)
                    || (Load64be(a, 16) == Load64be(b, 16) && Load64be(a, 24) < Load64be(b, 24))))))
  }

  predicate AddressNotEqual(a: Address, b: Address) { !AddressEqual(a, b) }
  predicate AddressGreater(a: Address, b: Address) { AddressLess(b, a) }
  predicate AddressAtMost(a: Address, b: Address) { !AddressLess(b, a) }
  predicate AddressAtLeast(a: Address, b: Address) { !AddressLess(a, b) }

  predicate WordNotEqual(a: Word, b: Word) { !WordEqual(a, b) }
  predicate WordGreater(a: Word, b: Word) { WordLess(b, a) }
  predicate WordAtMost(a: Word, b: Word) { !WordLess(b, a) }
  predicate WordAtLeast(a: Word, b: Word) { !WordLess(a, b) }

  predicate WordIsZero(a: Word) { WordEqual(a, ZERO_WORD) }

  // ---- Loads are values ----

  lemma Prefixes(s: seq<byte>, n: nat)
    requires n < |s|
    ensures Value(s[..n + 1]) == 256 * Value(s[..n]) + s[n]
  {
    assert s[..n + 1][..n] == s[..n];
  }

  lemma FourBytes(s: seq<byte>)
    requires |s| == 4
    ensures Value(s) == Load32be(s, 0)
  {
    Prefixes(s, 0);
    Prefixes(s, 1);
    Prefixes(s, 2);
    Prefixes(s, 3);
    assert s[..4] == s;
  }

  lemma EightBytes(s: seq<byte>)
    requires |s| == 8
    ensures Value(s) == Load64be(s, 0)
  {
    FourBytes(s[..4]);
    Prefixes(s, 4);
    Prefixes(s, 5);
    Prefixes(s, 6);
    Prefixes(s, 7);
    assert s[..8] == s;
  }

  lemma LoadsAreValues(s: seq<byte>, i: nat)
    requires i + 4 <= |s|
    ensures Load32be(s, i) == Value(s[i..i + 4])
    ensures i + 8 <= |s| ==> Load64be(s, i) == Value(s[i..i + 8])
  {
    FourBytes(s[i..i + 4]);
    if i + 8 <= |s| {
      EightBytes(s[i..i + 8]);
    }
  }

  function Reversed(s: seq<byte>): seq<byte> {
    seq(|s|, i requires 0 <= i < |s| => s[|s| - 1 - i])
  }

  /** The little-endian loads are the values of the bytes in reverse order. */
  lemma {:induction false} LittleEndianLoads(s: seq<byte>, i: nat)
    requires i + 4 <= |s|
    ensures Load32le(s, i) == Value(Reversed(s[i..i + 4]))
    ensures i + 8 <= |s| ==> Load64le(s, i) == Value(Reversed(s[i..i + 8]))
  {
    FourBytes(Reversed(s[i..i + 4]));
    if i + 8 <= |s| {
      EightBytes(Reversed(s[i..i + 8]));
    }
  }

  lemma EqualSlices(a: seq<byte>, b: seq<byte>, i: nat, n: nat)
    requires i + n <= |a| == |b| && a[i..i + n] == b[i..i + n]
    ensures forall k | i <= k < i + n :: a[k] == b[k]
  {
    forall k | i <= k < i + n ensures a[k] == b[k] {
      assert a[k] == a[i..i + n][k - i] && b[k] == b[i..i + n][k - i];
    }
  }

  lemma Load64leInjective(a: seq<byte>, b: seq<byte>, i: nat)
    requires i + 8 <= |a| == |b|
    ensures Load64le(a, i) == Load64le(b, i) <==> a[i..i + 8] == b[i..i + 8]
  {
    var ra := [a[i + 7], a[i + 6], a[i + 5], a[i + 4], a[i + 3], a[i + 2], a[i + 1], a[i]];
    var rb := [b[i + 7], b[i + 6], b[i + 5], b[i + 4], b[i + 3], b[i + 2], b[i + 1], b[i]];
    EightBytes(ra);
    EightBytes(rb);
    if Load64le(a, i) == Load64le(b, i) {
      ValueInjective(ra, rb);
      assert a[i] == ra[7] && a[i + 1] == ra[6] && a[i + 2] == ra[5] && a[i + 3] == ra[4];
      assert a[i + 4] == ra[3] && a[i + 5] == ra[2] && a[i + 6] == ra[1] && a[i + 7] == ra[0];
    }
    if a[i..i + 8] == b[i..i + 8] {
      EqualSlices(a, b, i, 8);
    }
  }

  lemma Load32leInjective(a: seq<byte>, b: seq<byte>, i: nat)
    requires i + 4 <= |a| == |b|
    ensures Load32le(a, i) == Load32le(b, i) <==> a[i..i + 4] == b[i..i + 4]
  {
    var ra := [a[i + 3], a[i + 2], a[i + 1], a[i]];
    var rb := [b[i + 3], b[i + 2], b[i + 1], b[i]];
    FourBytes(ra);
    FourBytes(rb);
    if Load32le(a, i) == Load32le(b, i) {
      ValueInjective(ra, rb);
      assert a[i] == ra[3] && a[i + 1] == ra[2] && a[i + 2] == ra[1] && a[i + 3] == ra[0];
    }
    if a[i..i + 4] == b[i..i + 4] {
      EqualSlices(a, b, i, 4);
    }
  }

  /** operator== holds exactly when all bytes agree. */
  lemma EqualityIsBytewise(a: Address, b: Address, v: Word, w: Word)
    ensures AddressEqual(a, b) <==> a == b
    ensures WordEqual(v, w) <==> v == w
  {
    Load64leInjective(a, b, 0);
    Load64leInjective(a, b, 8);
    Load32leInjective(a, b, 16);
    assert a == a[0..8] + a[8..16] + a[16..20] && b == b[0..8] + b[8..16] + b[16..20];
    WordEqualityIsBytewise(v, w);
  }

  lemma WordEqualityIsBytewise(v: Word, w: Word)
    ensures WordEqual(v, w) <==> v == w
  {
    Load64leInjective(v, w, 0);
    Load64leInjective(v, w, 8);
    Load64leInjective(v, w, 16);
    Load64leInjective(v, w, 24);
    assert v == v[0..8] + v[8..16] + v[16..24] + v[24..32] && w == w[0..8] + w[8..16] + w[16..24] + w[24..32];
  }

  // ---- Lexicographic order ----

  /** The first differing byte decides. */
  ghost predicate LexLess(a: seq<byte>, b: seq<byte>)
    requires |a| == |b|
  {
    exists k | 0 <= k < |a| :: DecidesAt(a, b, k)
  }

  ghost predicate DecidesAt(a: seq<byte>, b: seq<byte>, k: nat)
    requires k < |a| == |b|
  {
    a[..k] == b[..k] && a[k] < b[k]
  }

  /** byte_traits::compare. */
  method Compare(a: seq<byte>, b: seq<byte>, count: nat) returns (order: int)
    requires |a| == |b| == count
    ensures order == -1 <==> LexLess(a, b)
    ensures order == 1 <==> LexLess(b, a)
    ensures order == 0 <==> a == b
    ensures order in {-1, 0, 1}
  {
    LexIsIntegerOrder(a, b);
    LexIsIntegerOrder(b, a);
    var i := 0;
    while i < count
      invariant i <= count && a[..i] == b[..i]
    {
      if a[i] < b[i] {
        assert DecidesAt(a, b, i);
        return -1;
      }
      if b[i] < a[i] {
        assert DecidesAt(b, a, i);
        return 1;
      }
      assert a[..i + 1] == a[..i] + [a[i]] && b[..i + 1] == b[..i] + [b[i]];
      i := i + 1;
    }
    assert a == a[..i] && b == b[..i];
    return 0;
  }

  lemma {:induction false} LexIsIntegerOrder(a: seq<byte>, b: seq<byte>)
    requires |a| == |b|
    ensures LexLess(a, b) <==> Value(a) < Value(b)
  {
    if a != [] {
      var n := |a| - 1;
      LexIsIntegerOrder(a[..n], b[..n]);
      if Value(a[..n]) == Value(b[..n]) {
        ValueInjective(a[..n], b[..n]);
      }
      if k :| 0 <= k < |a| && DecidesAt(a, b, k) {
        if k < n {
          assert a[..n][..k] == a[..k] && b[..n][..k] == b[..k];
          assert DecidesAt(a[..n], b[..n], k);
        }
      }
      if k :| 0 <= k < n && DecidesAt(a[..n], b[..n], k) {
        assert a[..n][..k] == a[..k] && b[..n][..k] == b[..k];
        assert DecidesAt(a, b, k);
      } else if Value(a) < Value(b) {
        assert DecidesAt(a, b, n);
      }
    }
  }

  /** Comparing high parts first and low parts on a tie is comparing the whole. */
  lemma ChunkOrder(a: seq<byte>, b: seq<byte>, i: nat)
    requires |a| == |b| && i <= |a|
    ensures Value(a) < Value(b) <==>
            Value(a[..i]) < Value(b[..i]) || (Value(a[..i]) == Value(b[..i]) && Value(a[i..]) < Value(b[i..]))
  {
    assert a == a[..i] + a[i..] && b == b[..i] + b[i..];
    ValueConcat(a[..i], a[i..]);
    ValueConcat(b[..i], b[i..]);
    ValueBound(a[i..]);
    ValueBound(b[i..]);
    HighPartDecides(Value(a[..i]), Value(b[..i]), Pow256(|a| - i), Value(a[i..]), Value(b[i..]));
  }

  lemma HighPartDecides(x: nat, y: nat, p: nat, r: nat, s: nat)
    requires r < p && s < p
    ensures x * p + r < y * p + s <==> x < y || (x == y && r < s)
  {
    if x < y {
      assert (x + 1) * p <= y * p;
    } else if y < x {
      assert (y + 1) * p <= x * p;
    }
  }

  /** The chunked operator< on addresses is the order of 160-bit integers. */
  lemma AddressLessIsIntegerOrder(a: Address, b: Address)
    ensures AddressLess(a, b) <==> Value(a) < Value(b)
    ensures AddressLess(a, b) <==> LexLess(a, b)
  {
    LexIsIntegerOrder(a, b);
    FirstHalf(a, b);
    LastChunk(a);
    LastChunk(b);
    ChunkOrder(a, b, 16);
  }

  lemma LastChunk(a: Address)
    ensures Load32be(a, 16) == Value(a[16..])
  {
    LoadsAreValues(a, 16);
    assert a[16..] == a[16..20];
  }

  /** The chunked operator< on bytes32 is the order of 256-bit integers. */
  lemma WordLessIsIntegerOrder(a: Word, b: Word)
    ensures WordLess(a, b) <==> Value(a) < Value(b)
    ensures WordLess(a, b) <==> LexLess(a, b)
  {
    LexIsIntegerOrder(a, b);
    FirstHalf(a, b);
    FirstHalf(a[16..], b[16..]);
    ChunkOrder(a, b, 16);
    assert a[16..][..16] == a[16..] && b[16..][..16] == b[16..];
  }

  lemma FirstHalf(a: seq<byte>, b: seq<byte>)
    requires 16 <= |a| == |b|
    ensures Value(a[..16]) < Value(b[..16]) <==>
            Load64be(a, 0) < Load64be(b, 0) || (Load64be(a, 0) == Load64be(b, 0) && Load64be(a, 8) < Load64be(b, 8))
    ensures Value(a[..16]) == Value(b[..16]) <==> Load64be(a, 0) == Load64be(b, 0) && Load64be(a, 8) == Load64be(b, 8)
  {
    TwoLoads(a);
    TwoLoads(b);
    ChunkOrder(a[..16], b[..16], 8);
    ChunkOrder(b[..16], a[..16], 8);
  }

  lemma TwoLoads(a: seq<byte>)
    requires 16 <= |a|
    ensures Value(a[..16][..8]) == Load64be(a, 0) && Value(a[..16][8..]) == Load64be(a, 8)
  {
    LoadsAreValues(a, 0);
    LoadsAreValues(a, 8);
    assert a[..16][..8] == a[0..8] && a[..16][8..] == a[8..16];
  }

  // ---- The six operators ----

  /** On addresses the operators are the comparisons of the integers, hence one total order. */
  lemma AddressOperators(a: Address, b: Address)
    ensures AddressEqual(a, b) <==> Value(a) == Value(b)
    ensures AddressNotEqual(a, b) <==> Value(a) != Value(b)
    ensures AddressLess(a, b) <==> Value(a) < Value(b)
    ensures AddressGreater(a, b) <==> Value(a) > Value(b)
    ensures AddressAtMost(a, b) <==> Value(a) <= Value(b)
    ensures AddressAtLeast(a, b) <==> Value(a) >= Value(b)
  {
    EqualityIsBytewise(a, b, ZERO_WORD, ZERO_WORD);
    AddressLessIsIntegerOrder(a, b);
    AddressLessIsIntegerOrder(b, a);
    if Value(a) == Value(b) {
      ValueInjective(a, b);
    }
  }

  /** The same for bytes32, and is_zero is being the integer 0. */
  lemma WordOperators(a: Word, b: Word)
    ensures WordEqual(a, b) <==> Value(a) == Value(b)
    ensures WordNotEqual(a, b) <==> Value(a) != Value(b)
    ensures WordLess(a, b) <==> Value(a) < Value(b)
    ensures WordGreater(a, b) <==> Value(a) > Value(b)
    ensures WordAtMost(a, b) <==> Value(a) <= Value(b)
    ensures WordAtLeast(a, b) <==> Value(a) >= Value(b)
    ensures WordIsZero(a) <==> Value(a) == 0
  {
    WordEqualityIsBytewise(a, b);
    WordEqualityIsBytewise(a, ZERO_WORD);
    WordLessIsIntegerOrder(a, b);
    WordLessIsIntegerOrder(b, a);
    ValueZeros(32);
    if Value(a) == Value(b) {
      ValueInjective(a, b);
    }
    if Value(a) == 0 {
      ValueInjective(a, ZERO_WORD);
    }
  }
}
