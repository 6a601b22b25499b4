/**
 What lib/loader/loader.c promises: the name of the create function derived from a path,
 and the meaning of a configuration string.
 */
module LoaderSpec {
  import opened Bytes
  import opened CString

  const PATH_MAX_LENGTH := 4096
  const ABI_VERSION := 12
  const PREFIX := "evmc_create_"

  /** evmc_loader_error_code. */
  datatype ErrorCode =
    | LoaderSuccess | CannotOpen | SymbolNotFound | InvalidArgument | CreationFailure
    | AbiVersionMismatch | InvalidOptionName | InvalidOptionValue

  // ---- Names ----

  /** The path component after the last '/'. */
  function FileName(path: string): string {
    if path == "" || path[|path| - 1] == '/' then "" else FileName(path[..|path| - 1]) + [path[|path| - 1]]
  }

  function WithoutLib(name: string): string {
    if "lib" <= name then name[3..] else name
  }

  function Underscored(s: string): string {
    seq(|s|, i requires 0 <= i < |s| => if s[i] == '-' then '_' else s[i])
  }

  /** The part of a path that names the VM. */
  function VmName(path: string): string {
    WithoutLib(FileName(path))
  }

  /** The documented symbol: prefix, VM name up to the first '.', '-' as '_'. */
  function Symbol(path: string): string {
    PREFIX + Underscored(Before(VmName(path), '.'))
  }

  /** The symbol looked up; a name that does not fit its buffer is dropped. */
  function SymbolFor(path: string): string {
    if |VmName(path)| < PATH_MAX_LENGTH then Symbol(path) else PREFIX
  }

  /** For paths within the length limit the name is dropped only when the whole path is one of 4096 characters. */
  lemma NameDroppedIff(path: string)
    requires |path| <= PATH_MAX_LENGTH
    ensures |VmName(path)| >= PATH_MAX_LENGTH <==>
            |path| == PATH_MAX_LENGTH && '/' !in path && !("lib" <= path)
  {
    FileNameSuffix(path);
    if |FileName(path)| == |path| {
      assert FileName(path) == path;
    }
  }

  /** Of the paths evmc_load accepts, exactly these are looked up under another symbol than the documented one. */
  lemma DocumentedSymbolIff(path: string)
    requires |path| <= 4096
    ensures SymbolFor(path) == Symbol(path) <==>
            !(|path| == 4096 && '/' !in path && !("lib" <= path) && path[0] != '.')
  {
    NameDroppedIff(path);
    FileNameSuffix(path);
    if |VmName(path)| >= PATH_MAX_LENGTH {
      assert path[0..] == VmName(path);
      assert Underscored(Before(path, '.')) == "" <==> Before(path, '.') == "";
      assert Before(path, '.') == "" <==> Find(path, '.') == Some(0);
    }
  }

  /** A path of 4096 letters: a library that defines the documented symbol, and only it, is not found. */
  lemma DocumentedSymbolIsMissed(fn: CreateFn)
    ensures var path := seq(PATH_MAX_LENGTH, _ => 'a');
            && Symbol(path) != SymbolFor(path)
            && LoadError(map[path := map[Symbol(path) := fn]], path) == SymbolNotFound
  {
    var path := seq(PATH_MAX_LENGTH, _ => 'a');
    assert path[0] == 'a';
    DocumentedSymbolIff(path);
    NameDroppedIff(path);
  }

  /** The file name is the longest suffix without '/'. */
  lemma {:induction false} FileNameSuffix(path: string)
    ensures var name := FileName(path); var n := |path| - |name|;
            && n >= 0 && path[n..] == name && '/' !in name
            && (n > 0 ==> path[n - 1] == '/') && (n == 0 <==> '/' !in path)
  {
    if path != "" {
      var front := path[..|path| - 1];
      FileNameSuffix(front);
      assert path == front + [path[|path| - 1]];
      var n := |path| - |FileName(path)|;
      assert n > 0 ==> path[n - 1] in path;
    }
  }

  /** What follows the last '/' is the file name. */
  lemma {:induction false} FileNameAfter(directory: string, name: string)
    requires '/' !in name && (directory == "" || directory[|directory| - 1] == '/')
    ensures FileName(directory + name) == name
  {
    if name != "" {
      var path := directory + name;
      assert path[..|path| - 1] == directory + name[..|name| - 1];
      FileNameAfter(directory, name[..|name| - 1]);
    } else {
      assert directory + name == directory;
    }
  }

  lemma BeforeExtension(base: string, extension: string)
    requires '.' !in base && (extension == "" || extension[0] == '.')
    ensures Before(base + extension, '.') == base
  {
    CutAfter(base, extension, '.');
    assert extension != "" ==> Find(extension, '.') == Some(0);
    assert base + "" == base;
  }

  /**
   The documented rules: directory, "lib" and extensions are dropped, '-' becomes '_', and
   "evmc_create_" is put in front, for every way to write the four parts.
   */
  lemma SymbolRules(directory: string, lib: string, base: string, extension: string)
    requires directory == "" || directory[|directory| - 1] == '/'
    requires lib == "lib" || (lib == "" && !("lib" <= base))
    requires '/' !in base && '.' !in base && '/' !in extension && (extension == "" || extension[0] == '.')
    ensures var symbol := Symbol(directory + (lib + (base + extension)));
            && |symbol| == 12 + |base| && symbol[..12] == "evmc_create_"
            && forall i | 0 <= i < |base| :: symbol[12 + i] == if base[i] == '-' then '_' else base[i]
  {
    var name := base + extension;
    FileNameAfter(directory, lib + name);
    NameWithoutLib(lib, base, extension);
    BeforeExtension(base, extension);
    PrefixedName(Underscored(base));
  }

  lemma NameWithoutLib(lib: string, base: string, extension: string)
    requires lib == "lib" || (lib == "" && !("lib" <= base))
    requires '.' !in base && (extension == "" || extension[0] == '.')
    ensures WithoutLib(lib + (base + extension)) == base + extension
  {
    var name := base + extension;
    if lib == "lib" {
      assert (lib + name)[3..] == name;
    } else {
      assert lib + name == name;
      assert |base| >= 3 ==> name[..3] == base[..3];
      assert |base| < 3 && extension != "" ==> name[|base|] == '.';
    }
  }

  lemma PrefixedName(name: string)
    ensures var symbol := PREFIX + name;
            |symbol| == 12 + |name| && symbol[..12] == "evmc_create_" && symbol[12..] == name
  {
  }

  // ---- Libraries and VMs ----

  datatype SetOptionResult = OptionSuccess | OptionInvalidName | OptionInvalidValue | OptionOther

  type OptionPair = (string, string)

  /** set_option may depend on every option offered so far, the newest last. */
  datatype Vm = Vm(abiVersion: int, setOption: Option<seq<OptionPair> -> SetOptionResult>)

  /** A create function returns a VM or null. */
  datatype CreateFn = CreateFn(vm: Option<Vm>)

  /** The symbols of a library. */
  type Library = map<string, CreateFn>
  type FileSystem = map<string, Library>

  /** The first of the derived symbol and "evmc_create" that resolves. */
  function Lookup(lib: Library, path: string): Option<CreateFn> {
    if SymbolFor(path) in lib then Some(lib[SymbolFor(path)])
    else if "evmc_create" in lib then Some(lib["evmc_create"])
    else None
  }

  function LoadError(files: FileSystem, path: string): ErrorCode {
    if path == "" || |path| > PATH_MAX_LENGTH then InvalidArgument
    else if path !in files then CannotOpen
    else if Lookup(files[path], path) == None then SymbolNotFound
    else LoaderSuccess
  }

  function Loaded(files: FileSystem, path: string): Option<CreateFn> {
    if LoadError(files, path) == LoaderSuccess then Lookup(files[path], path) else None
  }

  /** The derived symbol comes first, "evmc_create" only without it, and nothing else is ever returned. */
  lemma LoadedIsFirstSymbol(files: FileSystem, path: string)
    ensures var ok := 0 < |path| <= 4096 && path in files;
            && (ok && SymbolFor(path) in files[path] ==> Loaded(files, path) == Some(files[path][SymbolFor(path)]))
            && (ok && SymbolFor(path) !in files[path] && "evmc_create" in files[path] ==>
                  Loaded(files, path) == Some(files[path]["evmc_create"]))
            && (ok && SymbolFor(path) !in files[path] && "evmc_create" !in files[path] ==> Loaded(files, path) == None)
            && (!ok ==> Loaded(files, path) == None)
  {
  }

  /** The error codes of evmc_load, each with its only cause. */
  lemma LoadErrorCodes(files: FileSystem, path: string)
    ensures var ec, found := LoadError(files, path), Loaded(files, path).Some?;
            && (ec == InvalidArgument <==> path == "" || |path| > 4096)
            && (ec == CannotOpen <==> 0 < |path| <= 4096 && path !in files)
            && (ec == SymbolNotFound <==> 0 < |path| <= 4096 && path in files && !found)
            && (ec == LoaderSuccess <==> found)
  {
  }

  function CreateError(files: FileSystem, path: string): ErrorCode {
    match Loaded(files, path)
    case None => LoadError(files, path)
    case Some(fn) =>
      if fn.vm == None then CreationFailure
      else if fn.vm.value.abiVersion != ABI_VERSION then AbiVersionMismatch
      else LoaderSuccess
  }

  /** A VM object came into being, even if it was of the wrong ABI version. */
  predicate Creates(files: FileSystem, path: string) {
    Loaded(files, path).Some? && Loaded(files, path).value.vm.Some?
  }

  /** evmc_load_and_create succeeds exactly for a created VM of ABI version 12, and has one code per failure. */
  lemma CreateErrorCodes(files: FileSystem, path: string)
    ensures var ec, fn := CreateError(files, path), Loaded(files, path);
            && (ec == LoaderSuccess <==> fn.Some? && fn.value.vm.Some? && fn.value.vm.value.abiVersion == 12)
            && (ec == AbiVersionMismatch <==> fn.Some? && fn.value.vm.Some? && fn.value.vm.value.abiVersion != 12)
            && (ec == CreationFailure <==> fn.Some? && fn.value.vm == None)
            && (fn == None ==> ec == LoadError(files, path))
            && (Creates(files, path) <==> ec == LoaderSuccess || ec == AbiVersionMismatch)
  {
    LoadErrorCodes(files, path);
  }

  // ---- Configuration strings ----

  function ParseOption(option: string): OptionPair {
    (Before(option, '='), After(option, '='))
  }

  function ParseOptions(s: string): seq<OptionPair>
    decreases |s|
  {
    if s == "" then [] else [ParseOption(Before(s, ','))] + ParseOptions(After(s, ','))
  }

  /** The error for the n-th option, given those before it. */
  function OptionError(vm: Vm, offered: seq<OptionPair>): ErrorCode {
    match vm.setOption
    case None => InvalidOptionName
    case Some(f) =>
      match f(offered)
      case OptionSuccess => LoaderSuccess
      case OptionInvalidName => InvalidOptionName
      case OptionInvalidValue => InvalidOptionValue
      case OptionOther => InvalidOptionValue
  }

  /** Offers the options in turn after `done` were accepted: the options offered in all, and the error. */
  function Offer(vm: Vm, done: seq<OptionPair>, rest: seq<OptionPair>): (seq<OptionPair>, ErrorCode)
    decreases |rest|
  {
    if rest == [] then (done, LoaderSuccess)
    else if vm.setOption == None then (done, InvalidOptionName)
    else
      var offered := done + [rest[0]];
      var ec := OptionError(vm, offered);
      if ec == LoaderSuccess then Offer(vm, offered, rest[1..]) else (offered, ec)
  }

  /** The VM accepts the n-th option when it is offered after the ones before it. */
  predicate Accepts(vm: Vm, options: seq<OptionPair>, n: nat)
    requires 0 < n <= |options|
  {
    OptionError(vm, options[..n]) == LoaderSuccess
  }

  /** The options are offered in order up to and including the first that is rejected. */
  lemma {:induction false} OfferedUpToFirstRejection(vm: Vm, done: seq<OptionPair>, rest: seq<OptionPair>)
    requires forall k | 0 < k <= |done| :: Accepts(vm, done, k)
    ensures var all := done + rest; var (offered, ec) := Offer(vm, done, rest);
            && offered <= all
            && (ec == LoaderSuccess <==> rest == [] || forall k | 0 < k <= |all| :: Accepts(vm, all, k))
            && (ec == LoaderSuccess ==> offered == all)
            && (ec != LoaderSuccess && vm.setOption.Some? ==>
                  |offered| > |done| && ec == OptionError(vm, offered)
                  && forall k | 0 < k < |offered| :: Accepts(vm, all, k))
            && (vm.setOption.None? ==> offered == done)
    decreases |rest|
  {
    var all := done + rest;
    if rest == [] {
      assert all == done;
    } else if vm.setOption.Some? {
      var next := done + [rest[0]];
      assert all == next + rest[1..];
      assert all[..|next|] == next;
      forall k | 0 < k <= |done| ensures Accepts(vm, all, k) && Accepts(vm, next, k) {
        assert Accepts(vm, done, k);
        assert all[..k] == done[..k] && next[..k] == done[..k];
      }
      assert next[..|next|] == next;
      if OptionError(vm, next) == LoaderSuccess {
        OfferedUpToFirstRejection(vm, next, rest[1..]);
      } else {
        assert !Accepts(vm, all, |next|);
      }
    } else {
      assert !Accepts(vm, all, |all|);
    }
  }

  datatype Configuration = Configuration(vm: Option<Vm>, ec: ErrorCode, offered: seq<OptionPair>)

  /** What evmc_load_and_configure does with a configuration string. */
  function Configure(files: FileSystem, config: string): Configuration {
    var path := Before(config, ',');
    if |config| >= PATH_MAX_LENGTH then Configuration(None, InvalidArgument, [])
    else if CreateError(files, path) != LoaderSuccess then Configuration(None, CreateError(files, path), [])
    else
      var vm := Loaded(files, path).value.vm.value;
      var (offered, ec) := Offer(vm, [], ParseOptions(After(config, ',')));
      Configuration(if ec == LoaderSuccess then Some(vm) else None, ec, offered)
  }

  lemma {:induction false} OfferErrors(vm: Vm, done: seq<OptionPair>, rest: seq<OptionPair>)
    ensures Offer(vm, done, rest).1 in {LoaderSuccess, InvalidOptionName, InvalidOptionValue}
    decreases |rest|
  {
    if rest != [] && vm.setOption.Some? {
      OfferErrors(vm, done + [rest[0]], rest[1..]);
    }
  }

  /**
   InvalidArgument means a configuration of at least 4096 characters or one without a path.  A
   limit of 4096 characters, as the error text has it, is kept for all others but those of length 4096.
   */
  lemma ConfigurationTooLongIff(files: FileSystem, config: string)
    ensures var path := Before(config, ','); var rejected := Configure(files, config).ec == InvalidArgument;
            && (rejected <==> |config| >= 4096 || path == "")
            && ((rejected <==> |config| > 4096 || path == "") <==>
                !(|config| == 4096 && path != ""))
  {
    var path := Before(config, ',');
    if |config| < PATH_MAX_LENGTH && CreateError(files, path) == LoaderSuccess {
      OfferErrors(Loaded(files, path).value.vm.value, [], ParseOptions(After(config, ',')));
    }
  }

  /** A configuration of 4096 characters is rejected, and accepted without its last one. */
  lemma ConfigurationAtLimit()
    ensures var vm := Vm(ABI_VERSION, Some(_ => OptionSuccess));
            var files := map["vm" := map["evmc_create_vm" := CreateFn(Some(vm))]];
            var config := "vm," + seq(PATH_MAX_LENGTH - 3, _ => 'a');
            && |config| == PATH_MAX_LENGTH
            && Configure(files, config).ec == InvalidArgument
            && Configure(files, config[..PATH_MAX_LENGTH - 1]).vm == Some(vm)
  {
    var vm := Vm(ABI_VERSION, Some(_ => OptionSuccess));
    var files := map["vm" := map["evmc_create_vm" := CreateFn(Some(vm))]];
    var name := seq(PATH_MAX_LENGTH - 4, _ => 'a');
    var config := "vm," + seq(PATH_MAX_LENGTH - 3, _ => 'a');
    assert config[..PATH_MAX_LENGTH - 1] == "vm" + [','] + name;
    CutJoined("vm", ',', name);
    ParseFirst(name, "");
    VmIsLoaded(vm);
    OfferSingle(vm, ParseOption(name));
  }

  lemma OfferSingle(vm: Vm, o: OptionPair)
    requires OptionError(vm, [o]) == LoaderSuccess
    ensures Offer(vm, [], [o]) == ([o], LoaderSuccess)
  {
    assert [] + [o] == [o];
    assert Offer(vm, [o], []) == ([o], LoaderSuccess);
  }

  lemma VmIsLoaded(vm: Vm)
    requires vm.abiVersion == ABI_VERSION
    ensures var files := map["vm" := map["evmc_create_vm" := CreateFn(Some(vm))]];
            CreateError(files, "vm") == LoaderSuccess && Loaded(files, "vm") == Some(CreateFn(Some(vm)))
  {
    FileNameSuffix("vm");
    assert VmName("vm") == "vm";
    NoCut("vm", '.');
    assert Underscored("vm") == "vm";
    assert SymbolFor("vm") == "evmc_create_vm";
  }

  /**
   The error codes of evmc_load_and_configure once the VM exists: a VM without set_option rejects any
   option name, and otherwise the answer to the last option offered decides.
   */
  lemma ConfigureErrorCodes(files: FileSystem, config: string)
    requires |config| < 4096 && CreateError(files, Before(config, ',')) == LoaderSuccess
    ensures var c := Configure(files, config); var vm := Loaded(files, Before(config, ',')).value.vm.value;
            && (vm.setOption == None ==>
                  c.offered == [] && c.ec == (if After(config, ',') == "" then LoaderSuccess else InvalidOptionName))
            && (vm.setOption.Some? && c.ec != LoaderSuccess ==>
                  c.offered != [] && c.ec == (match vm.setOption.value(c.offered)
                                              case OptionInvalidName => InvalidOptionName
                                              case OptionInvalidValue => InvalidOptionValue
                                              case OptionOther => InvalidOptionValue
                                              case OptionSuccess => LoaderSuccess))
            && (vm.setOption.Some? && c.ec == LoaderSuccess ==>
                  forall k | 0 < k <= |c.offered| :: vm.setOption.value(c.offered[..k]) == OptionSuccess)
  {
    var vm, rest := Loaded(files, Before(config, ',')).value.vm.value, ParseOptions(After(config, ','));
    OfferedUpToFirstRejection(vm, [], rest);
    var (offered, ec) := Offer(vm, [], rest);
    assert [] + rest == rest;
    if vm.setOption.Some? && ec == LoaderSuccess {
      forall k | 0 < k <= |offered| ensures vm.setOption.value(offered[..k]) == OptionSuccess {
        assert Accepts(vm, rest, k);
      }
    }
  }

  /** Without a VM the error is that of creating it, nothing is offered and nothing returned. */
  lemma ConfigureWithoutVm(files: FileSystem, config: string)
    requires |config| < 4096 && CreateError(files, Before(config, ',')) != LoaderSuccess
    ensures var c := Configure(files, config);
            c.vm == None && c.offered == [] && c.ec == CreateError(files, Before(config, ','))
  {
  }

  // ---- Printing ----

  function PrintOption(o: OptionPair): string {
    o.0 + "=" + o.1
  }

  /** Options separated by commas. */
  function PrintOptions(options: seq<OptionPair>): string
    requires options != []
  {
    if |options| == 1 then PrintOption(options[0]) else PrintOption(options[0]) + [','] + PrintOptions(options[1..])
  }

  function Print(path: string, options: seq<OptionPair>): string {
    if options == [] then path else path + [','] + PrintOptions(options)
  }

  /** Names and values that can be written in a configuration string. */
  predicate Printable(options: seq<OptionPair>) {
    forall i | 0 <= i < |options| :: ',' !in options[i].0 && ',' !in options[i].1 && '=' !in options[i].0
  }

  lemma OptionIsRead(o: OptionPair)
    requires ',' !in o.0 && ',' !in o.1 && '=' !in o.0
    ensures ParseOption(PrintOption(o)) == o && ',' !in PrintOption(o) && PrintOption(o) != ""
  {
    CutJoined(o.0, '=', o.1);
  }

  lemma ParseFirst(text: string, rest: string)
    requires ',' !in text && text != ""
    ensures ParseOptions(text) == [ParseOption(text)]
    ensures ParseOptions(text + [','] + rest) == [ParseOption(text)] + ParseOptions(rest)
  {
    NoCut(text, ',');
    assert ParseOptions("") == [];
    CutJoined(text, ',', rest);
  }

  lemma {:induction false} ParsePrinted(options: seq<OptionPair>)
    requires Printable(options) && options != []
    ensures ParseOptions(PrintOptions(options)) == options
  {
    var o, rest := options[0], options[1..];
    OptionIsRead(o);
    if rest == [] {
      ParseFirst(PrintOption(o), "");
    } else {
      ParsePrinted(rest);
      ParseFirst(PrintOption(o), PrintOptions(rest));
    }
  }

  /** The parser reads back exactly the path and the options that were printed, in order. */
  lemma PrintedConfigurationIsRead(path: string, options: seq<OptionPair>)
    requires ',' !in path && Printable(options)
    ensures Before(Print(path, options), ',') == path
    ensures ParseOptions(After(Print(path, options), ',')) == options
  {
    if options == [] {
      NoCut(path, ',');
    } else {
      ParsePrinted(options);
      CutJoined(path, ',', PrintOptions(options));
    }
  }

  /**
   Printing a configuration and loading it offers exactly its options, in order, up to the first
   rejection, and yields the VM exactly when it accepts them all.
   */
  lemma ConfigurationRoundTrip(files: FileSystem, path: string, options: seq<OptionPair>)
    requires ',' !in path && Printable(options) && |Print(path, options)| < PATH_MAX_LENGTH
    requires CreateError(files, path) == LoaderSuccess
    ensures var c := Configure(files, Print(path, options)); var vm := Loaded(files, path).value.vm.value;
            && c.offered <= options
            && (c.vm == Some(vm) <==> forall k | 0 < k <= |options| :: Accepts(vm, options, k))
            && (c.vm == None <==> c.ec != LoaderSuccess)
            && (c.vm.Some? ==> c.offered == options)
            && (c.vm == None && vm.setOption.Some? ==>
                  c.offered != [] && c.ec == OptionError(vm, c.offered)
                  && forall k | 0 < k < |c.offered| :: Accepts(vm, options, k))
  {
    PrintedConfigurationIsRead(path, options);
    OfferedUpToFirstRejection(Loaded(files, path).value.vm.value, [], options);
    assert [] + options == options;
  }
}
