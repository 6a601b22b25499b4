/**
 The hex codec of include/evmc/hex.hpp over the filter iterator of
 include/evmc/filter_iterator.hpp.
 */
module Hex {
  import opened Bytes

  const HEX_DIGITS := "0123456789abcdef"

  // ---- What strings mean ----

  /** from_hex_digit: -1 for a character that is not a hex digit. */
  function FromHexDigit(h: char): int {
    if '0' <= h <= '9' then h as int - '0' as int
    else if 'a' <= h <= 'f' then h as int - 'a' as int + 10
    else if 'A' <= h <= 'F' then h as int - 'A' as int + 10
    else -1
  }

  /** The digit values of a string, -1 for each character that is not a digit. */
  function Nibbles(s: string): seq<int> {
    seq(|s|, i requires 0 <= i < |s| => FromHexDigit(s[i]))
  }

  predicate AllNibbles(ns: seq<int>) {
    forall i | 0 <= i < |ns| :: 0 <= ns[i] < 16
  }

  predicate HasPrefix(s: string) {
    |s| >= 2 && s[0] == '0' && s[1] == 'x'
  }

  function Stripped(s: string): string {
    if HasPrefix(s) then s[2..] else s
  }

  /** The valid inputs: an even number of characters, digits only after an optional 0x. */
  predicate IsHex(s: string) {
    |s| % 2 == 0 && AllNibbles(Nibbles(Stripped(s)))
  }

  /** Two digits a byte; a last odd digit is dropped. */
  function Decode(ns: seq<int>): seq<byte>
    requires AllNibbles(ns)
  {
    seq(|ns| / 2, k requires 0 <= k < |ns| / 2 => 16 * ns[2 * k] + ns[2 * k + 1])
  }

  /** What decoding a string yields. */
  function Meaning(s: string): Option<seq<byte>> {
    if IsHex(s) then Some(Decode(Nibbles(Stripped(s)))) else None
  }

  function DigitChar(k: nat): char
    requires k < 16
  {
    HEX_DIGITS[k]
  }

  /** hex(uint8_t). */
  function HexByte(b: byte): string {
    [DigitChar(b / 16), DigitChar(b % 16)]
  }

  /** The i-th half byte. */
  function NibbleAt(bs: seq<byte>, i: nat): nat
    requires i < 2 * |bs|
    ensures NibbleAt(bs, i) < 16
  {
    if i % 2 == 0 then bs[i / 2] / 16 else bs[i / 2] % 16
  }

  function HexOf(bs: seq<byte>): string {
    seq(2 * |bs|, i requires 0 <= i < 2 * |bs| => DigitChar(NibbleAt(bs, i)))
  }

  function LowerChar(c: char): char {
    if 'A' <= c <= 'F' then (c as int + 32) as char else c
  }

  function Lower(s: string): string {
    seq(|s|, i requires 0 <= i < |s| => LowerChar(s[i]))
  }

  // ---- Which strings ----

  predicate AllDigits(s: string) {
    forall i | 0 <= i < |s| :: s[i] in "0123456789abcdefABCDEF"
  }

  /** Even length, and only the 22 digit characters after an optional "0x". */
  predicate IsAccepted(s: string) {
    |s| % 2 == 0 && (AllDigits(s) || ("0x" <= s && AllDigits(s[2..])))
  }

  lemma DigitsAreListed(c: char)
    ensures c in "0123456789abcdefABCDEF" <==> '0' <= c <= '9' || 'a' <= c <= 'f' || 'A' <= c <= 'F'
  {
    var all := "0123456789abcdefABCDEF";
    if '0' <= c <= '9' {
      assert all[c as int - '0' as int] == c;
    } else if 'a' <= c <= 'f' {
      assert all[c as int - 'a' as int + 10] == c;
    } else if 'A' <= c <= 'F' {
      assert all[c as int - 'A' as int + 16] == c;
    }
  }

  /** The digits are these 22 characters, and upper and lower case have the same value. */
  lemma DigitCharacters(c: char)
    ensures FromHexDigit(c) >= 0 <==> c in "0123456789abcdefABCDEF"
    ensures FromHexDigit(c) < 16 && FromHexDigit(c) == FromHexDigit(LowerChar(c))
  {
    DigitsAreListed(c);
  }

  /** A digit's value is its place in the lower-case row. */
  lemma DigitValues(c: char)
    requires c in "0123456789abcdefABCDEF"
    ensures 0 <= FromHexDigit(c) < 16 && "0123456789abcdef"[FromHexDigit(c)] == LowerChar(c)
  {
    DigitsAreListed(c);
  }

  lemma DigitsAreNibbles(s: string)
    ensures AllNibbles(Nibbles(s)) <==> AllDigits(s)
  {
    forall i | 0 <= i < |s| ensures 0 <= Nibbles(s)[i] < 16 <==> s[i] in "0123456789abcdefABCDEF" {
      DigitCharacters(s[i]);
    }
  }

  /** Exactly these strings are decoded. */
  lemma AcceptedIff(s: string)
    ensures Meaning(s).Some? <==> IsAccepted(s)
  {
    DigitsAreNibbles(Stripped(s));
    if HasPrefix(s) {
      DigitCharacters('x');
      assert s[1] == 'x' && !AllDigits(s);
      assert s[..2] == "0x";
    }
  }

  /** Upper and lower case digits mean the same. */
  lemma CaseDoesNotMatter(s: string)
    ensures Meaning(s) == Meaning(Lower(s))
  {
    var digits := Stripped(s);
    assert Stripped(Lower(s)) == Lower(digits);
    forall i | 0 <= i < |digits| ensures Nibbles(Lower(digits))[i] == Nibbles(digits)[i] {
      DigitCharacters(digits[i]);
    }
    assert Nibbles(Lower(digits)) == Nibbles(digits);
  }

  // ---- The filter iterator ----

  function Filter(keep: char -> bool, s: string): string {
    if s == "" then "" else (if keep(s[0]) then [s[0]] else "") + Filter(keep, s[1..])
  }

  /** Filtering keeps or drops each character by itself and keeps their order. */
  lemma {:induction false} FilterIsByCharacter(keep: char -> bool, a: string, c: char, b: string)
    ensures Filter(keep, "") == "" && Filter(keep, [c]) == if keep(c) then [c] else ""
    ensures Filter(keep, a + b) == Filter(keep, a) + Filter(keep, b)
  {
    assert [c][1..] == "";
    if a == "" {
      assert a + b == b;
    } else {
      assert (a + b)[1..] == a[1..] + b;
      FilterIsByCharacter(keep, a[1..], c, b);
    }
  }

  function UpTo(n: nat): seq<nat> {
    seq(n, i requires 0 <= i => i)
  }

  class FilterIterator {
    const data: string
    const keep: char -> bool
    var base: nat
    var value: char
    ghost var readLog: seq<nat>  // the positions of data dereferenced so far

    /** base rests on a retained element whose value is cached, or at the end. */
    ghost predicate Valid()
      reads this
    {
      && base <= |data|
      && (base < |data| ==> keep(data[base]) && value == data[base])
      && readLog == UpTo(if base < |data| then base + 1 else |data|)
    }

    /** The elements still to come. */
    ghost function Remaining(): string
      reads this
      requires base <= |data|
    {
      Filter(keep, data[base..])
    }

    constructor (data: string, keep: char -> bool)
      ensures Valid() && this.data == data && this.keep == keep
      ensures Remaining() == Filter(keep, data)
    {
      this.data, this.keep := data, keep;
      base, value, readLog := 0, '\0', [];
      new;
      assert this.data[0..] == data;
      ForwardToNextValue();
    }

    method ForwardToNextValue()
      requires base <= |data| && readLog == UpTo(base)
      modifies this
      ensures Valid() && base >= old(base) && Remaining() == old(Remaining())
    {
      while base != |data|
        invariant base <= |data| && base >= old(base)
        invariant readLog == UpTo(base) && Remaining() == old(Remaining())
        decreases |data| - base
      {
        value := data[base];
        readLog := readLog + [base];
        if keep(value) {
          break;
        }
        assert data[base..][1..] == data[base + 1..];
        base := base + 1;
      }
    }

    /** operator++; each element of data is read exactly once, in order. */
    method Next()
      requires Valid() && base < |data|
      modifies this
      ensures Valid() && base > old(base)
      ensures old(Remaining()) == [old(value)] + Remaining()
    {
      assert data[base..][1..] == data[base + 1..];
      base := base + 1;
      ForwardToNextValue();
    }
  }

  // ---- The streaming decoder ----

  /** The digits among the first i characters. */
  function Digits(ns: seq<int>, prefix: bool, i: nat): seq<int>
    requires i <= |ns|
  {
    if prefix && i >= 2 then ns[2..i] else ns[..i]
  }

  /** What the decoder's variables mean after i characters. */
  ghost predicate Progress(ns: seq<int>, prefix: bool, i: nat, hiNibble: int, out: seq<byte>) {
    && i <= |ns|
    && var d := Digits(ns, prefix, i);
       && AllNibbles(d) && |d| % 2 == i % 2
       && out == Decode(d) && (i % 2 == 1 ==> hiNibble == 16 * d[|d| - 1])
  }

  lemma ProgressHigh(ns: seq<int>, prefix: bool, i: nat, hiNibble: int, out: seq<byte>)
    requires Progress(ns, prefix, i, hiNibble, out) && i < |ns| && 0 <= ns[i] < 16 && i % 2 == 0
    ensures Progress(ns, prefix, i + 1, 16 * ns[i], out)
  {
    assert Digits(ns, prefix, i + 1) == Digits(ns, prefix, i) + [ns[i]];
  }

  lemma ProgressLow(ns: seq<int>, prefix: bool, i: nat, hiNibble: int, out: seq<byte>)
    requires Progress(ns, prefix, i, hiNibble, out) && i < |ns| && 0 <= ns[i] < 16 && i % 2 == 1
    requires prefix ==> i != 1
    ensures 0 <= hiNibble + ns[i] < 256
    ensures Progress(ns, prefix, i + 1, hiNibble, out + [hiNibble + ns[i]])
  {
    var d, d' := Digits(ns, prefix, i), Digits(ns, prefix, i + 1);
    assert d' == d + [ns[i]];
  }

  lemma StrippedNibbles(s: string)
    ensures Nibbles(Stripped(s)) == if HasPrefix(s) then Nibbles(s)[2..] else Nibbles(s)
    ensures HasPrefix(s) ==> Nibbles(s)[0] == 0 && Nibbles(s)[1] == -1
  {
  }

  lemma BadCharacter(s: string, i: nat, hiNibble: int, out: seq<byte>)
    requires i < |s| && Progress(Nibbles(s), HasPrefix(s), i, hiNibble, out) && Nibbles(s)[i] == -1
    requires !(i == 1 && hiNibble == 0 && s[i] == 'x')
    ensures !IsHex(s)
  {
    StrippedNibbles(s);
    var ns := Nibbles(s);
    if HasPrefix(s) {
      assert i >= 2;
      assert ns[2..][i - 2] == ns[i];
    }
  }

  lemma PrefixSkipped(s: string, hiNibble: int, out: seq<byte>)
    requires |s| >= 2 && Progress(Nibbles(s), HasPrefix(s), 1, hiNibble, out) && hiNibble == 0 && s[1] == 'x'
    ensures HasPrefix(s) && Progress(Nibbles(s), true, 2, hiNibble, out)
  {
    assert Digits(Nibbles(s), HasPrefix(s), 1)[0] == FromHexDigit(s[0]);
    ZeroDigit(s[0]);
  }

  lemma ZeroDigit(c: char)
    ensures FromHexDigit(c) == 0 <==> c == '0'
  {
  }

  lemma AllConsumed(s: string, hiNibble: int, out: seq<byte>)
    requires Progress(Nibbles(s), HasPrefix(s), |s|, hiNibble, out)
    ensures IsHex(s) <==> |s| % 2 == 0
    ensures IsHex(s) ==> Meaning(s) == Some(out)
    ensures 2 * |out| <= |s|
  {
    StrippedNibbles(s);
    var ns := Nibbles(s);
    assert ns[..|s|] == ns && (|s| >= 2 ==> ns[2..|s|] == ns[2..]);
  }

  /** The decoder's loop body: `ok` is false where the source returns false. */
  method DecodeCharacter(ghost s: string, h: char, i: nat, hiNibble: int, out: seq<byte>)
      returns (ok: bool, hiNibble': int, out': seq<byte>)
    requires i < |s| && s[i] == h && Progress(Nibbles(s), HasPrefix(s), i, hiNibble, out)
    ensures ok ==> Progress(Nibbles(s), HasPrefix(s), i + 1, hiNibble', out')
    ensures !ok ==> !IsHex(s) && 2 * |out'| <= |s|
  {
    ok, hiNibble', out' := true, hiNibble, out;
    var v := FromHexDigit(h);
    assert v == Nibbles(s)[i];
    if v < 0 {
      if i == 1 && hiNibble == 0 && h == 'x' {
        PrefixSkipped(s, hiNibble, out);
      } else {
        BadCharacter(s, i, hiNibble, out);
        ok := false;
      }
    } else if i % 2 == 0 {
      ProgressHigh(Nibbles(s), HasPrefix(s), i, hiNibble, out);
      hiNibble' := 16 * v;
    } else {
      StrippedNibbles(s);
      ProgressLow(Nibbles(s), HasPrefix(s), i, hiNibble, out);
      out' := out + [hiNibble + v];
    }
  }

  lemma NextCharacter(it: FilterIterator, s: string, i: nat)
    requires it.Valid() && it.base < |it.data| && i <= |s| && it.Remaining() == s[i..]
    ensures i < |s| && s[i] == it.value && s[i..] == [it.value] + s[i + 1..]
  {
    assert it.data[it.base..][0] == it.value;
    assert it.Remaining()[0] == it.value;
  }

  /** One round of the loop: the current character is decoded and the iterator advanced. */
  method DecodeNext(it: FilterIterator, ghost s: string, i: nat, hiNibble: int, out: seq<byte>)
      returns (ok: bool, hiNibble': int, out': seq<byte>)
    requires it.Valid() && it.base < |it.data| && i <= |s| && it.Remaining() == s[i..]
    requires Progress(Nibbles(s), HasPrefix(s), i, hiNibble, out)
    modifies it
    ensures it.Valid() && 2 * |out'| <= |s|
    ensures !ok ==> !IsHex(s)
    ensures ok ==> i < |s| && it.base > old(it.base) && it.Remaining() == s[i + 1..]
                   && Progress(Nibbles(s), HasPrefix(s), i + 1, hiNibble', out')
  {
    NextCharacter(it, s, i);
    ok, hiNibble', out' := DecodeCharacter(s, it.value, i, hiNibble, out);
    if ok {
      ProgressBound(s, i + 1, hiNibble', out');
      it.Next();
    }
  }

  lemma ProgressBound(s: string, i: nat, hiNibble: int, out: seq<byte>)
    requires Progress(Nibbles(s), HasPrefix(s), i, hiNibble, out)
    ensures 2 * |out| <= |s|
  {
  }

  /** from_hex on a pair of iterators; `out` collects what is written through the output iterator. */
  method FromHex(it: FilterIterator) returns (ok: bool, out: seq<byte>)
    requires it.Valid()
    modifies it
    ensures ok <==> IsHex(old(it.Remaining()))
    ensures ok ==> Meaning(old(it.Remaining())) == Some(out) && it.readLog == UpTo(|it.data|)
    ensures 2 * |out| <= |old(it.Remaining())| && it.Valid()
  {
    ghost var s := it.Remaining();
    out := [];
    var hiNibble := -1;
    var i := 0;
    while it.base != |it.data|
      invariant it.Valid() && i <= |s| && Progress(Nibbles(s), HasPrefix(s), i, hiNibble, out)
      invariant it.Remaining() == s[i..]
      decreases |it.data| - it.base
    {
      ok, hiNibble, out := DecodeNext(it, s, i, hiNibble, out);
      if !ok {
        return;
      }
      i := i + 1;
    }
    assert it.data[it.base..] == "" && i == |s|;
    AllConsumed(s, hiNibble, out);
    ok := i % 2 == 0;
  }

  lemma {:induction false} FilterAll(keep: char -> bool, s: string)
    requires forall c :: keep(c)
    ensures Filter(keep, s) == s
  {
    if s != "" {
      FilterAll(keep, s[1..]);
    }
  }

  // ---- The callers ----

  /** from_hex on the iterators of a string_view, which retain every character. */
  method FromHexAll(s: string) returns (ok: bool, out: seq<byte>)
    ensures ok <==> IsHex(s)
    ensures ok ==> Meaning(s) == Some(out)
    ensures 2 * |out| <= |s|
  {
    var keep := (_: char) => true;
    var it := new FilterIterator(s, keep);
    FilterAll(keep, s);
    ok, out := FromHex(it);
  }

  /** validate_hex: the output goes to a sink. */
  method ValidateHex(s: string) returns (valid: bool)
    ensures valid <==> Meaning(s).Some?
  {
    var sink;
    valid, sink := FromHexAll(s);
  }

  /** from_hex(std::string_view). */
  method FromHexString(s: string) returns (bytes: Option<seq<byte>>)
    ensures bytes == Meaning(s)
    ensures bytes.Some? <==> IsAccepted(s)
    ensures bytes.Some? ==> 2 * |bytes.value| <= |s|
  {
    AcceptedIff(s);
    var ok, out := FromHexAll(s);
    bytes := if ok then Some(out) else None;
  }

  /** isspace; the subtraction is on unsigned int. */
  predicate IsSpace(ch: char) {
    ch == ' ' || (ch as int - 9) % 0x1_0000_0000 < 5
  }

  predicate IsNotSpace(ch: char) {
    !IsSpace(ch)
  }

  /** std::isspace in the "C" locale: space and the control characters 9 to 13. */
  lemma SpacesAreTheAsciiOnes(ch: char)
    ensures IsSpace(ch) <==> ch as int == 32 || 9 <= ch as int <= 13
  {
  }

  /** from_spaced_hex: decoding after the whitespace is taken out, reading every character once. */
  method FromSpacedHex(s: string) returns (bytes: Option<seq<byte>>)
    ensures bytes == Meaning(Filter(IsNotSpace, s))
  {
    var it := new FilterIterator(s, IsNotSpace);
    var ok, out := FromHex(it);
    bytes := if ok then Some(out) else None;
  }

  lemma HexOfDigits(bs: seq<byte>)
    ensures forall k | 0 <= k < |bs| ::
              HexOf(bs)[2 * k] == "0123456789abcdef"[bs[k] / 16]
              && HexOf(bs)[2 * k + 1] == "0123456789abcdef"[bs[k] % 16]
  {
    forall k | 0 <= k < |bs|
      ensures HexOf(bs)[2 * k] == DigitChar(bs[k] / 16) && HexOf(bs)[2 * k + 1] == DigitChar(bs[k] % 16)
    {
      assert NibbleAt(bs, 2 * k) == bs[k] / 16 && NibbleAt(bs, 2 * k + 1) == bs[k] % 16;
    }
  }

  /** hex(bytes_view). */
  method HexBytes(bs: seq<byte>) returns (str: string)
    ensures str == HexOf(bs)
    ensures |str| == 2 * |bs|
    ensures forall k | 0 <= k < |bs| ::
              str[2 * k] == "0123456789abcdef"[bs[k] / 16] && str[2 * k + 1] == "0123456789abcdef"[bs[k] % 16]
  {
    str := "";
    for i := 0 to |bs|
      invariant str == HexOf(bs[..i])
    {
      HexAppend(bs[..i], bs[i]);
      assert bs[..i + 1] == bs[..i] + [bs[i]];
      str := str + HexByte(bs[i]);
    }
    assert bs[..|bs|] == bs;
    HexOfDigits(bs);
  }

  /** The value of from_hex<T>(s) for a T of n bytes. */
  function FixedMeaning(s: string, n: nat): Option<seq<byte>> {
    var rest := Stripped(s);
    if |rest| / 2 > n || !IsHex(rest) then None
    else
      var digits := Meaning(rest).value;
      Some(Zeros(n - |rest| / 2) + digits + Zeros(|rest| / 2 - |digits|))
  }

  /** from_hex<T>, with the bytes of T as an array written through a pointer. */
  method FromHexFixed(s: string, n: nat) returns (r: Option<seq<byte>>)
    ensures r == FixedMeaning(s, n)
  {
    var rest := if |s| >= 2 && s[0] == '0' && s[1] == 'x' then s[2..] else s;
    var bytes := new byte[n](_ => 0);
    assert bytes[..] == Zeros(n);
    var numIn := |rest| / 2;
    if numIn > n {
      return None;
    }
    var ok, out := FromHexAll(rest);
    CopyInto(bytes, n - numIn, out);
    if !ok {
      return None;
    }
    ZerosAround(n, n - numIn, out);
    return Some(bytes[..]);
  }

  lemma ZerosAround(n: nat, offset: nat, out: seq<byte>)
    requires offset + |out| <= n
    ensures Zeros(n)[..offset] + out + Zeros(n)[offset + |out|..] == Zeros(offset) + out + Zeros(n - offset - |out|)
  {
  }

  /** The writes through the output pointer, which starts at `offset`. */
  method CopyInto(bytes: array<byte>, offset: nat, out: seq<byte>)
    requires offset + |out| <= bytes.Length
    modifies bytes
    ensures bytes[..] == old(bytes[..])[..offset] + out + old(bytes[..])[offset + |out|..]
  {
    forall i | 0 <= i < |out| {
      bytes[offset + i] := out[i];
    }
  }

  // ---- Round trips ----

  lemma HexAppend(bs: seq<byte>, b: byte)
    ensures HexOf(bs + [b]) == HexOf(bs) + HexByte(b)
  {
    forall i | 0 <= i < 2 * |bs| ensures NibbleAt(bs + [b], i) == NibbleAt(bs, i) {
    }
  }

  lemma DigitOfNibble(k: nat)
    requires k < 16
    ensures FromHexDigit(DigitChar(k)) == k
  {
  }

  lemma DigitBack(c: char)
    requires FromHexDigit(c) >= 0
    ensures FromHexDigit(c) < 16 && DigitChar(FromHexDigit(c)) == LowerChar(c)
  {
  }

  lemma HexNibbles(bs: seq<byte>)
    ensures var ns := Nibbles(HexOf(bs));
            |ns| == 2 * |bs| && forall i | 0 <= i < |ns| :: ns[i] == NibbleAt(bs, i)
  {
    forall i | 0 <= i < 2 * |bs| ensures Nibbles(HexOf(bs))[i] == NibbleAt(bs, i) {
      DigitOfNibble(NibbleAt(bs, i));
    }
  }

  lemma HexDecodes(bs: seq<byte>)
    ensures |HexOf(bs)| == 2 * |bs| && AllNibbles(Nibbles(HexOf(bs))) && Decode(Nibbles(HexOf(bs))) == bs
  {
    HexNibbles(bs);
    var ns := Nibbles(HexOf(bs));
    forall k | 0 <= k < |bs| ensures Decode(ns)[k] == bs[k] {
      assert ns[2 * k] == NibbleAt(bs, 2 * k) && ns[2 * k + 1] == NibbleAt(bs, 2 * k + 1);
    }
  }

  lemma NoPrefixInDigits(s: string)
    requires AllNibbles(Nibbles(s))
    ensures Stripped(s) == s && Stripped("0x" + s) == s
  {
    assert |s| >= 2 ==> Nibbles(s)[1] >= 0;
  }

  lemma FullWidth(s: string, digits: string, bs: seq<byte>)
    requires Stripped(s) == digits && Stripped(digits) == digits && |s| % 2 == 0
    requires |digits| == 2 * |bs| && AllNibbles(Nibbles(digits)) && Decode(Nibbles(digits)) == bs
    ensures Meaning(s) == Some(bs) && FixedMeaning(s, |bs|) == Some(bs)
  {
    assert Zeros(0) + bs + Zeros(0) == bs;
  }

  /** Decoding inverts encoding, with or without a prefix, and into a type of the same width. */
  lemma DecodeInvertsEncode(bs: seq<byte>)
    ensures Meaning(HexOf(bs)) == Some(bs) && Meaning("0x" + HexOf(bs)) == Some(bs)
    ensures FixedMeaning(HexOf(bs), |bs|) == Some(bs) && FixedMeaning("0x" + HexOf(bs), |bs|) == Some(bs)
  {
    var s := HexOf(bs);
    HexDecodes(bs);
    NoPrefixInDigits(s);
    FullWidth(s, s, bs);
    FullWidth("0x" + s, s, bs);
  }

  lemma DecodeNibbles(ns: seq<int>, i: nat)
    requires AllNibbles(ns) && |ns| % 2 == 0 && i < |ns|
    ensures NibbleAt(Decode(ns), i) == ns[i]
  {
    var k := i / 2;
    assert Decode(ns)[k] == 16 * ns[2 * k] + ns[2 * k + 1];
  }

  /** Encoding what was decoded gives the input back in lower case and without its prefix. */
  lemma EncodeInvertsDecode(s: string)
    requires Meaning(s).Some?
    ensures HexOf(Meaning(s).value) == Lower(Stripped(s))
  {
    var digits := Stripped(s);
    var ns, bs := Nibbles(digits), Meaning(s).value;
    forall i | 0 <= i < |digits| ensures HexOf(bs)[i] == Lower(digits)[i] {
      DecodeNibbles(ns, i);
      assert ns[i] == FromHexDigit(digits[i]);
      DigitBack(digits[i]);
    }
  }

  // ---- Fixed width ----

  /** Accepted inputs keep their value, except that a second 0x shifts it by one byte. */
  lemma FixedValue(s: string, n: nat)
    requires FixedMeaning(s, n).Some?
    ensures var rest := Stripped(s); var r := FixedMeaning(s, n).value; var v := Value(Meaning(rest).value);
            |r| == n && Value(r) == if HasPrefix(rest) then 256 * v else v
  {
    var rest := Stripped(s);
    var digits := Meaning(rest).value;
    var tail := Zeros(|rest| / 2 - |digits|);
    assert FixedMeaning(s, n).value == Zeros(n - |rest| / 2) + (digits + tail);
    ValueLeftPad(n - |rest| / 2, digits + tail);
    ValueConcat(digits, tail);
    ValueZeros(|tail|);
    assert |tail| == if HasPrefix(rest) then 1 else 0;
    assert Pow256(0) == 1 && Pow256(1) == 256;
  }

  /** Left padding keeps the value exactly for inputs without a doubled prefix, or of value 0. */
  lemma FixedKeepsValueIff(s: string, n: nat)
    requires FixedMeaning(s, n).Some?
    ensures var rest := Stripped(s);
            Value(FixedMeaning(s, n).value) == Value(Meaning(rest).value)
            <==> !HasPrefix(rest) || Value(Meaning(rest).value) == 0
  {
    FixedValue(s, n);
  }

  /** A doubled prefix is accepted and misplaced: "0x0x01" as two bytes is 0x0100. */
  lemma DoubledPrefix()
    ensures FixedMeaning("0x0x01", 2) == Some([1, 0])
  {
    var rest := Stripped("0x0x01");
    assert rest == "0x01" && Stripped(rest) == "01";
    assert Nibbles("01") == [0, 1];
    assert Decode([0, 1]) == [1];
    assert Zeros(0) + [1] + Zeros(1) == [1, 0];
  }

  /** Longer inputs are rejected, whatever they hold. */
  lemma FixedRejects(s: string, n: nat)
    ensures FixedMeaning(s, n).None? <==> |Stripped(s)| > 2 * n + 1 || !IsHex(Stripped(s))
  {
  }
}
