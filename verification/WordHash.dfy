/**
 The FNV-1a based hashes of `address` and `bytes32` (std::hash in include/evmc/evmc.hpp),
 for a 64-bit size_t.
 */
module WordHash {
  import opened Bytes
  import opened WordOrder

  const UINT64 := 0x1_0000_0000_0000_0000
  const PRIME := 0x100_0000_01b3
  const OFFSET_BASIS := 0xcbf2_9ce4_8422_2325

  /** The inverse of PRIME modulo 2^64. */
  const INVERSE := 0xce96_5057_aff6_957b

  /** Bitwise exclusive or. */
  function Xor(x: nat, y: nat): nat {
    if x == 0 && y == 0 then 0 else 2 * Xor(x / 2, y / 2) + (x % 2 + y % 2) % 2
  }

  function Fnv1aBy64(h: nat, x: nat): nat {
    Xor(h, x) * PRIME % UINT64
  }

  /** The hash state before the word x was mixed in, from the state h after it. */
  function Unmix(h: nat, x: nat): nat {
    Xor(h * INVERSE % UINT64, x)
  }

  function HashAddress(a: Address): nat {
    Fnv1aBy64(Fnv1aBy64(Fnv1aBy64(OFFSET_BASIS, Load64le(a, 0)), Load64le(a, 8)), Load32le(a, 16))
  }

  function HashWord(w: Word): nat {
    Fnv1aBy64(Fnv1aBy64(Fnv1aBy64(Fnv1aBy64(OFFSET_BASIS, Load64le(w, 0)), Load64le(w, 8)), Load64le(w, 16)),
              Load64le(w, 24))
  }

  // ---- Xor ----

  lemma XorStep(x: nat, y: nat)
    ensures Xor(x, y) == 2 * Xor(x / 2, y / 2) + (x % 2 + y % 2) % 2
    ensures Xor(x, y) / 2 == Xor(x / 2, y / 2) && Xor(x, y) % 2 == (x % 2 + y % 2) % 2
  {
  }

  lemma {:induction false} XorCancels(x: nat, y: nat)
    ensures Xor(Xor(x, y), y) == x
  {
    if x != 0 || y != 0 {
      XorCancels(x / 2, y / 2);
      var z := Xor(x, y);
      XorStep(x, y);
      assert Xor(z, y) == 2 * (x / 2) + (z % 2 + y % 2) % 2 by {
        XorStep(z, y);
      }
      ParityCancels(x, y);
    }
  }

  lemma ParityCancels(x: nat, y: nat)
    ensures ((x % 2 + y % 2) % 2 + y % 2) % 2 == x % 2
  {
  }

  lemma {:induction false} XorCommutes(x: nat, y: nat)
    ensures Xor(x, y) == Xor(y, x)
  {
    if x != 0 || y != 0 {
      XorCommutes(x / 2, y / 2);
    }
  }

  predicate IsPowerOf2(m: nat) {
    m == 1 || (m > 1 && m % 2 == 0 && IsPowerOf2(m / 2))
  }

  lemma {:induction false} XorBound(x: nat, y: nat, m: nat)
    requires x < m && y < m && IsPowerOf2(m)
    ensures Xor(x, y) < m
  {
    if x != 0 || y != 0 {
      XorBound(x / 2, y / 2, m / 2);
    }
  }

  lemma Doubling(m: nat)
    requires IsPowerOf2(m)
    ensures IsPowerOf2(2 * m)
  {
  }

  lemma {:induction false} PowerOf256IsPowerOf2(n: nat)
    ensures IsPowerOf2(Pow256(n))
  {
    if n > 0 {
      PowerOf256IsPowerOf2(n - 1);
      var m := Pow256(n - 1);
      Doubling(m);
      Doubling(2 * m);
      Doubling(4 * m);
      Doubling(8 * m);
      Doubling(16 * m);
      Doubling(32 * m);
      Doubling(64 * m);
      Doubling(128 * m);
    }
  }

  lemma Xor64(x: nat, y: nat)
    requires x < UINT64 && y < UINT64
    ensures Xor(x, y) < UINT64
  {
    PowersOf256();
    PowerOf256IsPowerOf2(8);
    XorBound(x, y, UINT64);
  }

  // ---- The mixing step is a bijection ----

  lemma MultiplyBack(w: nat, p: nat, q: nat, k: nat)
    requires w < UINT64 && p * q == k * UINT64 + 1
    ensures w * p % UINT64 * q % UINT64 == w
  {
    var r, d := w * p % UINT64, w * p / UINT64;
    assert w * p == d * UINT64 + r;
    Rearrange(w, p, q, k, d, r);
    ModUnique(r * q, UINT64, w * k - d * q, w);
  }

  lemma Rearrange(w: nat, p: nat, q: nat, k: nat, d: nat, r: nat)
    requires p * q == k * UINT64 + 1 && w * p == d * UINT64 + r && w < UINT64
    ensures r * q == (w * k - d * q) * UINT64 + w && w * k - d * q >= 0
  {
    assert w * p * q == d * UINT64 * q + r * q;
    assert w * p * q == w * (p * q);
    assert w * (p * q) == w * k * UINT64 + w;
    assert d * UINT64 * q == d * q * UINT64;
  }

  lemma PrimeInverse()
    ensures PRIME * INVERSE == 0xce_9650_590f * UINT64 + 1
  {
  }

  /** For a fixed word the state before is determined by the state after, and conversely. */
  lemma MixIsInvertible(h: nat, x: nat)
    requires h < UINT64 && x < UINT64
    ensures Fnv1aBy64(h, x) < UINT64 && Unmix(Fnv1aBy64(h, x), x) == h
    ensures Unmix(h, x) < UINT64 && Fnv1aBy64(Unmix(h, x), x) == h
  {
    PrimeInverse();
    Xor64(h, x);
    XorCancels(h, x);
    MultiplyBack(Xor(h, x), PRIME, INVERSE, 0xce_9650_590f);
    var g := h * INVERSE % UINT64;
    Xor64(g, x);
    XorCancels(g, x);
    MultiplyBack(h, INVERSE, PRIME, 0xce_9650_590f);
  }

  /** For a fixed state, mixing is a bijection of the 64-bit words: the word x with target h' is unique. */
  lemma MixIsBijective(h: nat, x: nat, y: nat, target: nat)
    requires h < UINT64 && x < UINT64 && y < UINT64 && target < UINT64
    ensures Fnv1aBy64(h, x) == Fnv1aBy64(h, y) <==> x == y
    ensures Unmix(target, h) < UINT64 && Fnv1aBy64(h, Unmix(target, h)) == target
  {
    XorCommutes(h, x);
    XorCommutes(h, y);
    MixIsInvertible(x, h);
    MixIsInvertible(y, h);
    MixIsInvertible(target, h);
    XorCommutes(h, Unmix(target, h));
  }

  /** States stay apart under equal words. */
  lemma MixKeepsApart(g: nat, h: nat, x: nat)
    requires g < UINT64 && h < UINT64 && x < UINT64 && g != h
    ensures Fnv1aBy64(g, x) != Fnv1aBy64(h, x)
  {
    MixIsInvertible(g, x);
    MixIsInvertible(h, x);
  }

  // ---- Whole hashes ----

  /** The hash state after the given words. */
  function Fold(words: seq<nat>): nat {
    if words == [] then OFFSET_BASIS else Fnv1aBy64(Fold(words[..|words| - 1]), words[|words| - 1])
  }

  ghost predicate Words64(words: seq<nat>) {
    forall i | 0 <= i < |words| :: words[i] < UINT64
  }

  lemma {:induction false} FoldBound(words: seq<nat>)
    requires Words64(words)
    ensures Fold(words) < UINT64
  {
    if words != [] {
      FoldBound(words[..|words| - 1]);
      MixIsInvertible(Fold(words[..|words| - 1]), words[|words| - 1]);
    }
  }

  /** A change of exactly one word always changes the hash. */
  lemma {:induction false} OneChangeChangesFold(a: seq<nat>, b: seq<nat>, i: nat)
    requires |a| == |b| && i < |a| && Words64(a) && Words64(b)
    requires a[i] != b[i] && forall k | 0 <= k < |a| && k != i :: a[k] == b[k]
    ensures Fold(a) != Fold(b)
  {
    var n := |a| - 1;
    FoldBound(a[..n]);
    FoldBound(b[..n]);
    if i == n {
      assert a[..n] == b[..n];
      MixIsBijective(Fold(a[..n]), a[n], b[n], 0);
    } else {
      OneChangeChangesFold(a[..n], b[..n], i);
      MixKeepsApart(Fold(a[..n]), Fold(b[..n]), a[n]);
    }
  }

  function AddressWords(a: Address): seq<nat> {
    [Load64le(a, 0), Load64le(a, 8), Load32le(a, 16)]
  }

  function WordWords(w: Word): seq<nat> {
    [Load64le(w, 0), Load64le(w, 8), Load64le(w, 16), Load64le(w, 24)]
  }

  /** The words in the order of their bytes, each with its least significant byte first. */
  lemma {:induction false} AddressWordsAreLittleEndian(a: Address)
    ensures AddressWords(a) == [Value(Reversed(a[0..8])), Value(Reversed(a[8..16])), Value(Reversed(a[16..20]))]
  {
    LittleEndianLoads(a, 0);
    LittleEndianLoads(a, 8);
    LittleEndianLoads(a, 16);
  }

  lemma {:induction false} WordWordsAreLittleEndian(w: Word)
    ensures WordWords(w) == [Value(Reversed(w[0..8])), Value(Reversed(w[8..16])), Value(Reversed(w[16..24])),
                             Value(Reversed(w[24..32]))]
  {
    LittleEndianLoads(w, 0);
    LittleEndianLoads(w, 8);
    LittleEndianLoads(w, 16);
    LittleEndianLoads(w, 24);
  }

  lemma FoldThree(p: seq<nat>)
    requires |p| == 3
    ensures Fold(p) == Fnv1aBy64(Fnv1aBy64(Fnv1aBy64(OFFSET_BASIS, p[0]), p[1]), p[2])
  {
    assert p == [] + [p[0], p[1]] + [p[2]] && (p[..2])[..1] == [p[0]] && [p[0]][..0] == [];
    assert Fold([p[0]]) == Fnv1aBy64(OFFSET_BASIS, p[0]);
    assert Fold(p[..2]) == Fnv1aBy64(Fold([p[0]]), p[1]);
  }

  /** The hashes are the folds of the little-endian words. */
  lemma HashIsFold(a: Address, w: Word)
    ensures HashAddress(a) == Fold(AddressWords(a)) && HashWord(w) == Fold(WordWords(w))
    ensures Words64(AddressWords(a)) && Words64(WordWords(w))
    ensures HashAddress(a) == Fold([Value(Reversed(a[0..8])), Value(Reversed(a[8..16])), Value(Reversed(a[16..20]))])
    ensures HashWord(w) == Fold([Value(Reversed(w[0..8])), Value(Reversed(w[8..16])), Value(Reversed(w[16..24])),
                                 Value(Reversed(w[24..32]))])
  {
    AddressWordsAreLittleEndian(a);
    WordWordsAreLittleEndian(w);
    var q := WordWords(w);
    FoldThree(AddressWords(a));
    FoldThree(q[..3]);
    assert Fold(q) == Fnv1aBy64(Fold(q[..3]), q[3]);
  }

  ghost predicate DifferInOneWord(a: seq<nat>, b: seq<nat>) {
    |a| == |b| && exists i | 0 <= i < |a| :: a[i] != b[i] && forall k | 0 <= k < |a| && k != i :: a[k] == b[k]
  }

  lemma NoAddressCollisionOnOneWord(a: Address, b: Address)
    requires DifferInOneWord(AddressWords(a), AddressWords(b))
    ensures HashAddress(a) != HashAddress(b)
  {
    var i :| 0 <= i < 3 && AddressWords(a)[i] != AddressWords(b)[i]
             && forall k | 0 <= k < 3 && k != i :: AddressWords(a)[k] == AddressWords(b)[k];
    HashIsFold(a, ZERO_WORD);
    HashIsFold(b, ZERO_WORD);
    OneChangeChangesFold(AddressWords(a), AddressWords(b), i);
  }

  lemma NoWordCollisionOnOneWord(a: Word, b: Word)
    requires DifferInOneWord(WordWords(a), WordWords(b))
    ensures HashWord(a) != HashWord(b)
  {
    var i :| 0 <= i < 4 && WordWords(a)[i] != WordWords(b)[i]
             && forall k | 0 <= k < 4 && k != i :: WordWords(a)[k] == WordWords(b)[k];
    HashIsFold(Zeros(20), a);
    HashIsFold(Zeros(20), b);
    OneChangeChangesFold(WordWords(a), WordWords(b), i);
  }

  /** One word is the limit: any change of a word can be hidden by changing the next one. */
  lemma TwoWordsCanCollide(front: seq<nat>, x: nat, y: nat, x': nat)
    requires Words64(front) && x < UINT64 && y < UINT64 && x' < UINT64
    ensures exists y': nat :: y' < UINT64 && Fold(front + [x, y]) == Fold(front + [x', y'])
  {
    FoldBound(front);
    MixIsInvertible(Fold(front), x);
    MixIsInvertible(Fold(front), x');
    MixIsInvertible(Fnv1aBy64(Fold(front), x), y);
    FoldTwo(front, x, y);
    var y' := Unmix(Fold(front + [x, y]), Fnv1aBy64(Fold(front), x'));
    MixIsBijective(Fnv1aBy64(Fold(front), x'), 0, 0, Fold(front + [x, y]));
    FoldTwo(front, x', y');
  }

  lemma FoldTwo(front: seq<nat>, x: nat, y: nat)
    ensures Fold(front + [x, y]) == Fnv1aBy64(Fnv1aBy64(Fold(front), x), y)
  {
    assert (front + [x, y])[..|front| + 1] == front + [x];
    assert (front + [x])[..|front|] == front;
  }

  // ---- The mixing step in numbers ----

  lemma {:induction false} XorZero(x: nat)
    ensures Xor(x, 0) == x && Xor(x, x) == 0
  {
    if x != 0 {
      XorZero(x / 2);
    }
  }

  /** The word is mixed in before the multiplication with the FNV prime: only the state itself gives 0. */
  lemma MixIsXorThenMultiply(h: nat, x: nat)
    requires h < UINT64 && x < UINT64
    ensures Fnv1aBy64(h, 0) == h * 0x100_0000_01b3 % 0x1_0000_0000_0000_0000
    ensures Fnv1aBy64(h, x) == Fnv1aBy64(Xor(h, x), 0)
    ensures Fnv1aBy64(h, x) == 0 <==> x == h
  {
    XorZero(h);
    XorZero(Xor(h, x));
    MixIsBijective(h, x, h, 0);
  }

  /** n multiplications by the FNV prime. */
  function Multiplied(h: nat, n: nat): nat {
    if n == 0 then h else Multiplied(h, n - 1) * PRIME % UINT64
  }

  lemma {:induction false} FoldOfZeros(words: seq<nat>)
    requires forall i | 0 <= i < |words| :: words[i] == 0
    ensures Fold(words) == Multiplied(OFFSET_BASIS, |words|)
  {
    if words != [] {
      FoldOfZeros(words[..|words| - 1]);
      XorZero(Fold(words[..|words| - 1]));
    }
  }

  lemma MultipliedBasis()
    ensures Multiplied(0xcbf2_9ce4_8422_2325, 3) == 0xd94d_1218_6c0f_2fb7
    ensures Multiplied(0xcbf2_9ce4_8422_2325, 4) == 0x4d25_767f_9dce_13f5
  {
    assert Multiplied(0xcbf2_9ce4_8422_2325, 1) == 0xaf63_bd4c_8601_b7df;
    assert Multiplied(0xcbf2_9ce4_8422_2325, 2) == 0x0832_8807_b4eb_6fed;
  }

  lemma ZeroLoads(a: Address, w: Word)
    requires (forall i | 0 <= i < 20 :: a[i] == 0) && forall i | 0 <= i < 32 :: w[i] == 0
    ensures AddressWords(a) == [0, 0, 0] && WordWords(w) == [0, 0, 0, 0]
  {
  }

  /** The hashes of the zero address and of the zero word. */
  lemma ZeroHashes(a: Address, w: Word)
    requires (forall i | 0 <= i < 20 :: a[i] == 0) && forall i | 0 <= i < 32 :: w[i] == 0
    ensures HashAddress(a) == 0xd94d_1218_6c0f_2fb7 && HashWord(w) == 0x4d25_767f_9dce_13f5
  {
    HashIsFold(a, w);
    ZeroLoads(a, w);
    FoldOfZeros(AddressWords(a));
    FoldOfZeros(WordWords(w));
    MultipliedBasis();
  }
}
