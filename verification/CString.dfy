/**
 NUL-terminated strings inside character buffers, and the C library searches on them.
 */
module CString {
  import opened Bytes

  const NUL: char := '\0'

  /** The first position of c from i on. */
  function FindFrom(s: string, i: nat, c: char): (r: Option<nat>)
    requires i <= |s|
    ensures r == None <==> forall k | i <= k < |s| :: s[k] != c
    ensures r.Some? ==> i <= r.value < |s| && s[r.value] == c && forall k | i <= k < r.value :: s[k] != c
    decreases |s| - i
  {
    if i == |s| then None else if s[i] == c then Some(i) else FindFrom(s, i + 1, c)
  }

  /** strchr: the first position of c. */
  function Find(s: string, c: char): (r: Option<nat>)
    ensures r == None <==> c !in s
    ensures r.Some? ==> r.value < |s| && s[r.value] == c && forall k | 0 <= k < r.value :: s[k] != c
  {
    FindFrom(s, 0, c)
  }

  /** strrchr: the last position of c. */
  function FindLast(s: string, c: char): (r: Option<nat>)
    ensures r == None <==> c !in s
    ensures r.Some? ==> r.value < |s| && s[r.value] == c && c !in s[r.value + 1..]
  {
    if s == "" then None
    else if s[|s| - 1] == c then Some(|s| - 1)
    else
      match FindLast(s[..|s| - 1], c)
      case None =>
        assert s == s[..|s| - 1] + [s[|s| - 1]];
        None
      case Some(i) =>
        assert s[i + 1..] == s[..|s| - 1][i + 1..] + [s[|s| - 1]];
        Some(i)
  }

  /** The parts of s around its first c; without c everything is before it. */
  function Before(s: string, c: char): string {
    match Find(s, c)
    case None => s
    case Some(i) => s[..i]
  }

  function After(s: string, c: char): string {
    match Find(s, c)
    case None => ""
    case Some(i) => s[i + 1..]
  }

  lemma FindAt(s: string, i: nat, c: char)
    requires i < |s| && s[i] == c && forall k | 0 <= k < i :: s[k] != c
    ensures Find(s, c) == Some(i)
  {
  }

  /** The C string a pointer to position i of a buffer denotes: the characters up to the next NUL. */
  function StrAt(buffer: string, i: nat): string
    requires i <= |buffer|
  {
    var end := FindFrom(buffer, i, NUL);
    var n := if end == None then |buffer| - i else end.value - i;
    seq(n, k requires 0 <= k < n => buffer[i + k])
  }

  predicate Terminated(buffer: string, i: nat) {
    i <= |buffer| && FindFrom(buffer, i, NUL).Some?
  }

  /** The characters before the first NUL. */
  function CStr(buffer: string): string {
    StrAt(buffer, 0)
  }

  /** Text in a buffer followed by a NUL is the C string there. */
  lemma StrAtIs(buffer: string, at: nat, t: string)
    requires at + |t| < |buffer| && buffer[at + |t|] == NUL
    requires forall k | 0 <= k < |t| :: t[k] == buffer[at + k] && t[k] != NUL
    ensures Terminated(buffer, at) && StrAt(buffer, at) == t
  {
    assert forall k | at <= k < at + |t| :: buffer[k] == t[k - at];
  }

  /** The characters of a C string inside a buffer, and the position of its NUL. */
  lemma StrInBuffer(buffer: string, at: nat)
    requires Terminated(buffer, at)
    ensures var str := StrAt(buffer, at);
            && at + |str| < |buffer| && buffer[at + |str|] == NUL
            && forall k | 0 <= k < |str| :: str[k] == buffer[at + k] && str[k] != NUL
  {
  }

  /** Two buffers with the same characters from i on hold the same C string there. */
  lemma SameStr(a: string, b: string, i: nat)
    requires Terminated(b, i) && |a| == |b| && forall k | i <= k < |b| :: a[k] == b[k]
    ensures Terminated(a, i) && StrAt(a, i) == StrAt(b, i)
  {
    StrInBuffer(b, i);
    StrAtIs(a, i, StrAt(b, i));
  }

  /** Cutting undoes joining. */
  lemma CutJoined(a: string, c: char, b: string)
    requires c !in a
    ensures Before(a + [c] + b, c) == a && After(a + [c] + b, c) == b
  {
    FindAt(a + [c] + b, |a|, c);
  }

  lemma NoCut(a: string, c: char)
    requires c !in a
    ensures Before(a, c) == a && After(a, c) == ""
  {
  }

  /** A C string read from its start and from inside it. */
  lemma StrTail(buffer: string, head: string, tail: string)
    requires Terminated(buffer, 0) && CStr(buffer) == head + tail
    ensures |head| < |buffer| && buffer[..|head|] == head && Terminated(buffer, |head|) && StrAt(buffer, |head|) == tail
  {
    StrInBuffer(buffer, 0);
    assert forall k | 0 <= k < |head| :: head[k] == (head + tail)[k];
    assert forall k | 0 <= k < |tail| :: tail[k] == (head + tail)[|head| + k];
    StrAtIs(buffer, |head|, tail);
  }

  lemma StrJoin(buffer: string, head: string)
    requires |head| <= |buffer| && buffer[..|head|] == head && NUL !in head && Terminated(buffer, |head|)
    ensures Terminated(buffer, 0) && CStr(buffer) == head + StrAt(buffer, |head|)
  {
    var text := head + StrAt(buffer, |head|);
    StrInBuffer(buffer, |head|);
    assert forall k | 0 <= k < |text| :: text[k] == buffer[k] && text[k] != NUL;
    StrAtIs(buffer, 0, text);
  }

  /** Cutting after a prefix that does not hold the delimiter. */
  lemma CutAfter(head: string, tail: string, c: char)
    requires c !in head
    ensures Before(head + tail, c) == head + Before(tail, c)
  {
    match Find(tail, c)
    case None =>
    case Some(i) => FindAt(head + tail, |head| + i, c);
  }
}
