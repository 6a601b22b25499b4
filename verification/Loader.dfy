/**
 lib/loader/loader.c in its own form: names and configuration strings edited in place in
 NUL-terminated buffers, and an environment that counts opened and closed libraries and
 created and destroyed VMs.
 */
module Loader {
  import opened Bytes
  import opened CString
  import opened LoaderSpec

  /** strcpy_sx on the part of a buffer that starts at `at` and is `size` characters long. */
  method StrcpySx(buffer: array<char>, at: nat, size: nat, src: string) returns (error: int)
    requires 0 < size && at + size <= buffer.Length && NUL !in src
    modifies buffer
    ensures error == (if |src| >= size then 1 else 0)
    ensures var text := if error == 1 then "" else src;
            buffer[..] == old(buffer[..at]) + text + [NUL] + old(buffer[at + |text| + 1..])
    ensures Terminated(buffer[..], at) && StrAt(buffer[..], at) == if error == 1 then "" else src
  {
    if |src| >= size {
      buffer[at] := NUL;
      StrAtIs(buffer[..], at, "");
      return 1;
    }
    forall i | 0 <= i < |src| {
      buffer[at + i] := src[i];
    }
    buffer[at + |src|] := NUL;
    StrAtIs(buffer[..], at, src);
    return 0;
  }

  // ---- The symbol name ----

  lemma {:induction false} LastComponent(path: string, name: string)
    requires |name| <= |path| && path[|path| - |name|..] == name && '/' !in name
    requires |name| < |path| ==> path[|path| - |name| - 1] == '/'
    ensures name == FileName(path)
  {
    if name != "" {
      var front, last := name[..|name| - 1], path[|path| - 1];
      assert last == name[|name| - 1];
      assert path[..|path| - 1][|path| - |name|..] == front;
      LastComponent(path[..|path| - 1], front);
    }
  }

  /** The name_pos of evmc_load, as the string it points to. */
  method NamePosition(filename: string) returns (name: string)
    ensures name == VmName(filename)
  {
    var sep := FindLast(filename, '/');
    name := if sep == None then filename else filename[sep.value + 1..];
    LastComponent(filename, name);
    if "lib" <= name {
      name := name[3..];
    }
  }

  /** The buffer when every '-' from `base` up to `dash` has become '_'. */
  function Dashed(buffer: string, base: nat, dash: nat): string {
    seq(|buffer|, i requires 0 <= i < |buffer| => if base <= i < dash && buffer[i] == '-' then '_' else buffer[i])
  }

  lemma FindInSlice(s: string, at: nat, slice: string, c: char)
    requires at + |slice| <= |s| && forall k | 0 <= k < |slice| :: slice[k] == s[at + k]
    ensures match Find(slice, c)
            case None => forall i | at <= i < at + |slice| :: s[i] != c
            case Some(hit) =>
              at + hit < at + |slice| && s[at + hit] == c && forall i | at <= i < at + hit :: s[i] != c
  {
    assert forall i | at <= i < at + |slice| :: s[i] == slice[i - at];
    match Find(slice, c)
    case None =>
    case Some(hit) => assert forall i | at <= i < at + hit :: s[i] == slice[..hit][i - at];
  }

  /** strchr(dash_pos, '-') finds the next '-' of the text, or there is none left. */
  lemma NextDash(now: string, was: string, base: nat, dash: nat, text: string)
    requires base <= dash <= base + |text| < |was| == |now| && was[base + |text|] == NUL
    requires forall k | 0 <= k < |text| :: text[k] == was[base + k] && text[k] != NUL
    requires forall i | 0 <= i < |was| :: now[i] == if base <= i < dash && was[i] == '-' then '_' else was[i]
    ensures Terminated(now, dash)
    ensures match Find(StrAt(now, dash), '-')
            case None => forall i | dash <= i < base + |text| :: was[i] != '-'
            case Some(hit) =>
              dash + hit < base + |text| && was[dash + hit] == '-'
              && forall i | dash <= i < dash + hit :: was[i] != '-'
  {
    var rest := seq(base + |text| - dash, k requires 0 <= k < base + |text| - dash => was[dash + k]);
    assert forall k | 0 <= k < |rest| :: rest[k] == text[dash - base + k];
    StrAtIs(now, dash, rest);
    FindInSlice(was, dash, rest, '-');
  }

  /** Replaces '-' by '_' in the C string at `base`. */
  method ReplaceDashes(buffer: array<char>, base: nat)
    requires Terminated(buffer[..], base)
    modifies buffer
    ensures buffer[..] == Dashed(old(buffer[..]), base, base + |old(StrAt(buffer[..], base))|)
  {
    ghost var was := buffer[..];
    ghost var text := StrAt(was, base);
    StrInBuffer(was, base);
    var dash := base;
    while true
      invariant base <= dash <= base + |text| < buffer.Length == |was|
      invariant forall i | 0 <= i < |was| :: buffer[i] == if base <= i < dash && was[i] == '-' then '_' else was[i]
      decreases base + |text| - dash
    {
      NextDash(buffer[..], was, base, dash, text);
      var hit := Find(StrAt(buffer[..], dash), '-');
      if hit == None {
        break;
      }
      buffer[dash + hit.value] := '_';
      dash := dash + hit.value + 1;
    }
  }

  /** With its dashes replaced, the C string is the underscored one. */
  lemma DashedText(was: string, base: nat)
    requires Terminated(was, base)
    ensures var now := Dashed(was, base, base + |StrAt(was, base)|);
            Terminated(now, base) && StrAt(now, base) == Underscored(StrAt(was, base)) && now[..base] == was[..base]
  {
    StrInBuffer(was, base);
    var text := StrAt(was, base);
    StrAtIs(Dashed(was, base, base + |text|), base, Underscored(text));
  }

  /** The buffer cut at the first '.' of its C string. */
  function Trimmed(buffer: string): string {
    match Find(CStr(buffer), '.')
    case None => buffer
    case Some(ext) => if ext < |buffer| then buffer[ext := NUL] else buffer
  }

  /** Cuts the C string in the buffer at its first '.'. */
  method TrimExtension(buffer: array<char>)
    requires Terminated(buffer[..], 0)
    modifies buffer
    ensures buffer[..] == Trimmed(old(buffer[..]))
  {
    StrInBuffer(buffer[..], 0);
    var ext := Find(CStr(buffer[..]), '.');
    if ext != None {
      buffer[ext.value] := NUL;
    }
  }

  lemma TrimmedText(buffer: string)
    requires Terminated(buffer, 0)
    ensures Terminated(Trimmed(buffer), 0) && CStr(Trimmed(buffer)) == Before(CStr(buffer), '.')
  {
    StrInBuffer(buffer, 0);
    var text := CStr(buffer);
    match Find(text, '.')
    case None =>
    case Some(ext) =>
      StrAtIs(Trimmed(buffer), 0, text[..ext]);
  }

  /** Writes the prefix and after it the name, or nothing if the name does not fit. */
  method WriteName(buffer: array<char>, name: string)
    requires buffer.Length == |PREFIX| + 1 + PATH_MAX_LENGTH && NUL !in name
    modifies buffer
    ensures Terminated(buffer[..], 0)
    ensures CStr(buffer[..]) == PREFIX + if |name| < PATH_MAX_LENGTH then name else ""
  {
    var _ := StrcpySx(buffer, 0, buffer.Length, PREFIX);
    assert buffer[..|PREFIX|] == PREFIX;
    var ignored := StrcpySx(buffer, |PREFIX|, PATH_MAX_LENGTH, name);
    StrJoin(buffer[..], PREFIX);
  }

  /** The buffer after the two edits of the name at `base`: cut at the first '.', then '-' to '_'. */
  function Normalized(buffer: string, base: nat): string
    requires base <= |Trimmed(buffer)|
  {
    Dashed(Trimmed(buffer), base, base + |StrAt(Trimmed(buffer), base)|)
  }

  method NormalizeName(buffer: array<char>, base: nat)
    requires Terminated(buffer[..], 0) && Terminated(Trimmed(buffer[..]), base)
    modifies buffer
    ensures buffer[..] == Normalized(old(buffer[..]), base)
  {
    TrimExtension(buffer);
    ReplaceDashes(buffer, base);
  }

  lemma TrimKeepsPrefix(buffer: string, prefix: string, name: string)
    requires Terminated(buffer, 0) && CStr(buffer) == prefix + name && '.' !in prefix
    ensures Terminated(Trimmed(buffer), 0) && CStr(Trimmed(buffer)) == prefix + Before(name, '.')
  {
    TrimmedText(buffer);
    CutAfter(prefix, name, '.');
  }

  lemma DashesKeepPrefix(buffer: string, prefix: string, name: string)
    requires Terminated(buffer, 0) && CStr(buffer) == prefix + name
    ensures Terminated(buffer, |prefix|)
    ensures var now := Dashed(buffer, |prefix|, |prefix| + |StrAt(buffer, |prefix|)|);
            Terminated(now, 0) && CStr(now) == prefix + Underscored(name)
  {
    StrTail(buffer, prefix, name);
    StrInBuffer(buffer, 0);
    var now, text := Dashed(buffer, |prefix|, |prefix| + |name|), prefix + Underscored(name);
    forall k | 0 <= k < |text| ensures text[k] == now[k] && text[k] != NUL {
      assert buffer[k] == (prefix + name)[k];
    }
    StrAtIs(now, 0, text);
  }

  lemma NormalizedText(buffer: string, base: nat, prefix: string, name: string)
    requires Terminated(buffer, 0) && CStr(buffer) == prefix + name && |prefix| == base && '.' !in prefix
    ensures Terminated(Trimmed(buffer), base)
    ensures var now := Normalized(buffer, base);
            Terminated(now, 0) && CStr(now) == prefix + Underscored(Before(name, '.'))
  {
    TrimKeepsPrefix(buffer, prefix, name);
    DashesKeepPrefix(Trimmed(buffer), prefix, Before(name, '.'));
  }

  /** The in-place construction of the symbol name in evmc_load; all writes are inside the buffer. */
  method BuildSymbolName(filename: string) returns (symbol: string)
    requires NUL !in filename
    ensures symbol == SymbolFor(filename)
  {
    var prefixedName := new char[|PREFIX| + 1 + PATH_MAX_LENGTH](_ => NUL);
    var name := NamePosition(filename);
    FileNameSuffix(filename);
    WriteName(prefixedName, name);
    NormalizedText(prefixedName[..], |PREFIX|, PREFIX, if |name| < PATH_MAX_LENGTH then name else "");
    NormalizeName(prefixedName, |PREFIX|);
    symbol := CStr(prefixedName[..]);
  }

  // ---- Tokens ----

  lemma BeforeHasNoNul(s: string, c: char)
    requires NUL !in s
    ensures NUL !in Before(s, c)
  {
  }

  /** A NUL written into a C string ends it there. */
  lemma CutAt(buffer: string, at: nat, i: nat)
    requires Terminated(buffer, at) && i < |StrAt(buffer, at)|
    ensures at + i < |buffer|
    ensures var after := buffer[at + i := NUL]; Terminated(after, at) && StrAt(after, at) == StrAt(buffer, at)[..i]
  {
    StrInBuffer(buffer, at);
    StrAtIs(buffer[at + i := NUL], at, StrAt(buffer, at)[..i]);
  }

  /** What followed it is a C string of its own. */
  lemma RestAfterCut(buffer: string, at: nat, i: nat)
    requires Terminated(buffer, at) && i < |StrAt(buffer, at)| && at + i < |buffer|
    ensures var after := buffer[at + i := NUL]; var rest := at + i + 1; var str := StrAt(buffer, at);
            && Terminated(after, rest) && StrAt(after, rest) == str[i + 1..] && at + |str| < |buffer|
  {
    StrInBuffer(buffer, at);
    StrAtIs(buffer[at + i := NUL], at + i + 1, StrAt(buffer, at)[i + 1..]);
  }

  /** The buffer after get_token. */
  ghost function Cut(buffer: string, at: nat, delim: char): string
    requires Terminated(buffer, at)
  {
    match Find(StrAt(buffer, at), delim)
    case None => buffer
    case Some(i) => if at + i < |buffer| then buffer[at + i := NUL] else buffer
  }

  ghost function RestPosition(buffer: string, at: nat, delim: char): nat
    requires Terminated(buffer, at)
  {
    match Find(StrAt(buffer, at), delim)
    case None => at + |StrAt(buffer, at)|
    case Some(i) => at + i + 1
  }

  /** After the cut the strings at `at` and `rest` are head and tail. */
  ghost predicate Splits(buffer: string, after: string, at: nat, rest: nat, head: string, tail: string)
    requires Terminated(buffer, at)
  {
    var end := at + |StrAt(buffer, at)|;
    && Terminated(after, at) && StrAt(after, at) == head && Terminated(after, rest) && StrAt(after, rest) == tail
    && at + |head| <= rest <= end < |buffer|
  }

  /** Nothing behind the C string is touched. */
  lemma CutKeepsRest(buffer: string, at: nat, delim: char)
    requires Terminated(buffer, at)
    ensures var after := Cut(buffer, at, delim);
            |after| == |buffer| && forall k | at + |StrAt(buffer, at)| <= k < |buffer| :: after[k] == buffer[k]
  {
  }

  lemma NothingToCut(buffer: string, at: nat)
    requires Terminated(buffer, at)
    ensures var str := StrAt(buffer, at); Splits(buffer, buffer, at, at + |str|, str, "")
  {
    StrInBuffer(buffer, at);
    StrAtIs(buffer, at + |StrAt(buffer, at)|, "");
  }

  lemma {:induction false} CutApart(buffer: string, after: string, at: nat, i: nat, head: string, tail: string)
    requires Terminated(buffer, at) && i < |StrAt(buffer, at)| && at + i < |buffer| && after == buffer[at + i := NUL]
    requires head == StrAt(buffer, at)[..i] && tail == StrAt(buffer, at)[i + 1..]
    ensures Splits(buffer, after, at, at + i + 1, head, tail)
  {
    CutAt(buffer, at, i);
    RestAfterCut(buffer, at, i);
  }

  lemma CutNowhere(buffer: string, at: nat, delim: char)
    requires Terminated(buffer, at) && Find(StrAt(buffer, at), delim) == None
    ensures IsBeforeAndAfter(buffer, at, delim)
  {
    NothingToCut(buffer, at);
  }

  lemma CutThere(buffer: string, at: nat, delim: char, i: nat)
    requires Terminated(buffer, at) && Find(StrAt(buffer, at), delim) == Some(i)
    ensures IsBeforeAndAfter(buffer, at, delim)
  {
    var str := StrAt(buffer, at);
    assert at + i < |buffer| by {
      StrInBuffer(buffer, at);
    }
    CutApart(buffer, Cut(buffer, at, delim), at, i, Before(str, delim), After(str, delim));
  }

  /** The cut leaves the text before the delimiter, and the rest is the text after it. */
  ghost predicate IsBeforeAndAfter(buffer: string, at: nat, delim: char)
    requires Terminated(buffer, at)
  {
    var str := StrAt(buffer, at);
    Splits(buffer, Cut(buffer, at, delim), at, RestPosition(buffer, at, delim), Before(str, delim), After(str, delim))
  }

  lemma CutIsBeforeAndAfter(buffer: string, at: nat, delim: char)
    requires Terminated(buffer, at)
    ensures IsBeforeAndAfter(buffer, at, delim)
  {
    match Find(StrAt(buffer, at), delim)
    case None => CutNowhere(buffer, at, delim);
    case Some(i) => CutThere(buffer, at, delim, i);
  }

  /**
   get_token: the token stays where it is and is cut at the delimiter; the second result is the
   position of the rest.
   */
  method GetToken(buffer: array<char>, at: nat, delim: char) returns (token: nat, rest: nat)
    requires Terminated(buffer[..], at) && delim != NUL
    modifies buffer
    ensures token == at <= rest && Terminated(buffer[..], token) && Terminated(buffer[..], rest)
    ensures var str := old(StrAt(buffer[..], at));
            && StrAt(buffer[..], token) == Before(str, delim) && StrAt(buffer[..], rest) == After(str, delim)
            && at + |Before(str, delim)| <= rest <= at + |str| < buffer.Length
            && (str != "" ==> |After(str, delim)| < |str|)
            && forall k | at + |str| <= k < buffer.Length :: buffer[k] == old(buffer[k])
    ensures buffer[..] == Cut(old(buffer[..]), at, delim) && rest == RestPosition(old(buffer[..]), at, delim)
  {
    CutIsBeforeAndAfter(buffer[..], at, delim);
    CutKeepsRest(buffer[..], at, delim);
    ghost var after, next := Cut(buffer[..], at, delim), RestPosition(buffer[..], at, delim);
    token := at;
    var delimPos := Find(StrAt(buffer[..], at), delim);
    if delimPos != None {
      buffer[at + delimPos.value] := NUL;
      rest := at + delimPos.value + 1;
    } else {
      rest := at + |StrAt(buffer[..], at)|;
    }
    assert buffer[..] == after && rest == next;
  }

  /** The two cuts of one option, on the contents of the buffer. */
  lemma OptionIsCut(buffer: string, at: nat)
    requires Terminated(buffer, at) && StrAt(buffer, at) != ""
    ensures Terminated(Cut(buffer, at, ','), at)
    ensures var str := StrAt(buffer, at); var rest := RestPosition(buffer, at, ',');
            var once := Cut(buffer, at, ','); var value := RestPosition(once, at, '='); var twice := Cut(once, at, '=');
            && Terminated(twice, at) && Terminated(twice, value) && Terminated(twice, rest)
            && (StrAt(twice, at), StrAt(twice, value)) == ParseOption(Before(str, ','))
            && StrAt(twice, rest) == After(str, ',') && |After(str, ',')| < |str|
  {
    CutIsBeforeAndAfter(buffer, at, ',');
    var once, rest := Cut(buffer, at, ','), RestPosition(buffer, at, ',');
    CutIsBeforeAndAfter(once, at, '=');
    CutKeepsRest(once, at, '=');
    SameStr(Cut(once, at, '='), once, rest);
  }

  /** One option as (name, value), both read from the buffer after it was cut. */
  method NextOption(buffer: array<char>, options: nat) returns (pair: OptionPair, rest: nat)
    requires Terminated(buffer[..], options) && StrAt(buffer[..], options) != ""
    modifies buffer
    ensures Terminated(buffer[..], rest)
    ensures var str := old(StrAt(buffer[..], options));
            && pair == ParseOption(Before(str, ',')) && StrAt(buffer[..], rest) == After(str, ',')
            && |After(str, ',')| < |str|
  {
    OptionIsCut(buffer[..], options);
    var option, name, value;
    option, rest := GetToken(buffer, options, ',');
    name, value := GetToken(buffer, option, '=');
    pair := (StrAt(buffer[..], name), StrAt(buffer[..], value));
  }

  // ---- Configurations ----

  /** The copy of the configuration and its first token; error is set when it does not fit. */
  method ReadConfiguration(buffer: array<char>, config: string) returns (error: int, path: string, options: nat)
    requires NUL !in config && buffer.Length == PATH_MAX_LENGTH
    modifies buffer
    ensures error == 0 <==> |config| < PATH_MAX_LENGTH
    ensures error == 0 ==> path == Before(config, ',') && NUL !in path
    ensures error == 0 ==> Terminated(buffer[..], options) && StrAt(buffer[..], options) == After(config, ',')
  {
    path, options := "", 0;
    error := StrcpySx(buffer, 0, PATH_MAX_LENGTH, config);
    if error == 0 {
      var token;
      token, options := GetToken(buffer, 0, ',');
      path := StrAt(buffer[..], token);
      BeforeHasNoNul(config, ',');
    }
  }

  lemma AppendAfter(before: seq<OptionPair>, done: seq<OptionPair>, pair: OptionPair)
    ensures before + done + [pair] == before + (done + [pair])
  {
  }

  lemma OfferEnds(vm: Vm, done: seq<OptionPair>, str: string)
    requires str == "" || vm.setOption == None
    ensures Offer(vm, done, ParseOptions(str)) == (done, if str == "" then LoaderSuccess else InvalidOptionName)
  {
  }

  lemma OfferStep(vm: Vm, done: seq<OptionPair>, str: string)
    requires str != "" && vm.setOption.Some?
    ensures var pair := ParseOption(Before(str, ','));
            Offer(vm, done, ParseOptions(str)) ==
            if OptionError(vm, done + [pair]) != LoaderSuccess then (done + [pair], OptionError(vm, done + [pair]))
            else Offer(vm, done + [pair], ParseOptions(After(str, ',')))
  {
    assert ParseOptions(str)[1..] == ParseOptions(After(str, ','));
  }

  // ---- Loading ----

  /** Everything outside the process: libraries, handles, VM objects and the options VMs were offered. */
  class System {
    const files: FileSystem
    var openCount: nat
    var closeCount: nat
    var createCount: nat
    var destroyCount: nat
    var offered: seq<OptionPair>

    constructor (files: FileSystem)
      ensures this.files == files && openCount == closeCount == createCount == destroyCount == 0 && offered == []
    {
      this.files := files;
      openCount, closeCount, createCount, destroyCount, offered := 0, 0, 0, 0, [];
    }

    /** evmc_load; `None` is a null file name. */
    method Load(filename: Option<string>) returns (createFn: Option<CreateFn>, ec: ErrorCode)
      requires filename.Some? ==> NUL !in filename.value
      modifies this`openCount, this`closeCount
      ensures filename == None ==> createFn == None && ec == InvalidArgument
      ensures filename.Some? ==> createFn == Loaded(files, filename.value) && ec == LoadError(files, filename.value)
      ensures filename.Some? && 0 < |filename.value| <= 4096 && filename.value in files ==>
                var lib, symbol := files[filename.value], SymbolFor(filename.value);
                createFn == if symbol in lib then Some(lib[symbol])
                            else if "evmc_create" in lib then Some(lib["evmc_create"])
                            else None
      ensures openCount == old(openCount) + (if ec in {LoaderSuccess, SymbolNotFound} then 1 else 0)
      ensures closeCount == old(closeCount) + (if ec == SymbolNotFound then 1 else 0)
    {
      createFn, ec := None, LoaderSuccess;
      if filename == None {
        return None, InvalidArgument;
      }
      var path := filename.value;
      if |path| == 0 || |path| > PATH_MAX_LENGTH {
        return None, InvalidArgument;
      }
      if path !in files {
        return None, CannotOpen;
      }
      var handle := files[path];
      openCount := openCount + 1;
      var prefixedName := BuildSymbolName(path);
      createFn := if prefixedName in handle then Some(handle[prefixedName]) else None;
      if createFn == None {
        createFn := if "evmc_create" in handle then Some(handle["evmc_create"]) else None;
      }
      if createFn == None {
        closeCount := closeCount + 1;
        ec := SymbolNotFound;
      }
    }

    /** evmc_load_and_create. */
    method LoadAndCreate(filename: string) returns (vm: Option<Vm>, ec: ErrorCode)
      requires NUL !in filename
      modifies this`openCount, this`closeCount, this`createCount, this`destroyCount
      ensures ec == CreateError(files, filename)
      ensures vm == if ec == LoaderSuccess then Loaded(files, filename).value.vm else None
      ensures createCount == old(createCount) + (if Creates(files, filename) then 1 else 0)
      ensures destroyCount == old(destroyCount) + (if ec == AbiVersionMismatch then 1 else 0)
      ensures openCount == old(openCount) + (if ec in {InvalidArgument, CannotOpen} then 0 else 1)
      ensures closeCount == old(closeCount) + (if ec == SymbolNotFound then 1 else 0)
    {
      var createFn;
      createFn, ec := Load(Some(filename));
      if createFn == None {
        return None, ec;
      }
      vm := createFn.value.vm;
      if vm == None {
        return None, CreationFailure;
      }
      createCount := createCount + 1;
      if vm.value.abiVersion != ABI_VERSION {
        destroyCount := destroyCount + 1;
        return None, AbiVersionMismatch;
      }
    }

    /** One round of the option loop. */
    method OfferNext(vm: Vm, buffer: array<char>, options: nat, done: seq<OptionPair>)
      returns (ec: ErrorCode, pair: OptionPair, rest: nat)
      requires Terminated(buffer[..], options) && StrAt(buffer[..], options) != "" && vm.setOption.Some?
      modifies this`offered, buffer
      ensures offered == old(offered) + [pair]
      ensures Terminated(buffer[..], rest)
      ensures |StrAt(buffer[..], rest)| < |old(StrAt(buffer[..], options))|
      ensures Offer(vm, done, ParseOptions(old(StrAt(buffer[..], options)))) ==
              if ec == LoaderSuccess then Offer(vm, done + [pair], ParseOptions(StrAt(buffer[..], rest)))
              else (done + [pair], ec)
    {
      OfferStep(vm, done, StrAt(buffer[..], options));
      pair, rest := NextOption(buffer, options);
      offered := offered + [pair];
      ec := OptionError(vm, done + [pair]);
    }

    /** The option loop of evmc_load_and_configure. */
    method OfferOptions(vm: Vm, buffer: array<char>, start: nat) returns (ec: ErrorCode, done: seq<OptionPair>)
      requires Terminated(buffer[..], start)
      modifies this`offered, buffer
      ensures Offer(vm, [], ParseOptions(old(StrAt(buffer[..], start)))) == (done, ec)
      ensures offered == old(offered) + done
    {
      ghost var total := Offer(vm, [], ParseOptions(StrAt(buffer[..], start)));
      done := [];
      var options := start;
      ghost var str := StrAt(buffer[..], start);
      while StrAt(buffer[..], options) != ""
        invariant Terminated(buffer[..], options) && str == StrAt(buffer[..], options)
        invariant offered == old(offered) + done
        invariant total == Offer(vm, done, ParseOptions(str))
        decreases |str|
      {
        if vm.setOption == None {
          OfferEnds(vm, done, str);
          return InvalidOptionName, done;
        }
        var pair;
        ec, pair, options := OfferNext(vm, buffer, options, done);
        str := StrAt(buffer[..], options);
        AppendAfter(old(offered), done, pair);
        done := done + [pair];
        if ec != LoaderSuccess {
          return;
        }
      }
      OfferEnds(vm, done, str);
      ec := LoaderSuccess;
    }

    /** evmc_load_and_configure. */
    method LoadAndConfigure(config: string) returns (vm: Option<Vm>, ec: ErrorCode)
      requires NUL !in config
      modifies this
      ensures var c := Configure(files, config);
              vm == c.vm && ec == c.ec && offered == old(offered) + c.offered
      ensures var made := if |config| < PATH_MAX_LENGTH && Creates(files, Before(config, ',')) then 1 else 0;
              && createCount == old(createCount) + made
              && destroyCount == old(destroyCount) + made - (if vm.Some? then 1 else 0)
      ensures openCount == old(openCount) + (if ec in {InvalidArgument, CannotOpen} then 0 else 1)
      ensures closeCount == old(closeCount) + (if ec == SymbolNotFound then 1 else 0)
    {
      var buffer := new char[PATH_MAX_LENGTH](_ => NUL);
      var error, path, options := ReadConfiguration(buffer, config);
      if error != 0 {
        return None, InvalidArgument;
      }
      vm, ec := LoadAndCreate(path);
      if vm == None {
        return;
      }
      var done;
      ec, done := OfferOptions(vm.value, buffer, options);
      OfferErrors(vm.value, [], ParseOptions(After(config, ',')));
      if ec != LoaderSuccess {
        destroyCount := destroyCount + 1;
        vm := None;
      }
    }
  }
}
