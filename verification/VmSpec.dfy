/**
 The example VM of examples/example_vm/example_vm.cpp as a transition function on values.

 Each `Exec...` function is one case of the interpreter's switch.  Where the C++ source
 reads or writes outside an array (an unchecked stack, a PUSH immediate past the end of
 the code, a memory region whose 32-bit end wraps around) the outcome is a `Fault`, so that
 no run has to be excluded beforehand.
 */
module VmSpec {
  import opened Bytes

  const STACK_LIMIT := 1024
  const MEMORY_LIMIT := 1024
  const UINT32 := 0x1_0000_0000

  const OP_STOP := 0x00
  const OP_ADD := 0x01
  const OP_ADDRESS := 0x30
  const OP_CALLDATALOAD := 0x35
  const OP_NUMBER := 0x43
  const OP_MSTORE := 0x52
  const OP_SLOAD := 0x54
  const OP_SSTORE := 0x55
  const OP_MSIZE := 0x59
  const OP_PUSH1 := 0x60
  const OP_PUSH32 := 0x7f
  const OP_DUP1 := 0x80
  const OP_CALL := 0xf1
  const OP_RETURN := 0xf3
  const OP_REVERT := 0xfd

  /** evmc_revision: EVMC_FRONTIER is 0, EVMC_EXPERIMENTAL is 15. */
  type Revision = r: nat | r < 16
  const BYZANTIUM: Revision := 4

  datatype Status = Success | Failure | Revert | OutOfGas | UndefinedInstruction | OutOfMemory

  // ---- The host: a deterministic partner that may remember everything it was asked ----

  datatype CallMessage = CallMessage(gas: nat, recipient: Address, value: Word, input: seq<byte>)
  datatype CallResult = CallResult(success: bool, output: seq<byte>, releasable: bool)

  datatype Event =
    | TxContextRead
    | StorageRead(account: Address, key: Word)
    | StorageWrite(account: Address, key: Word, value: Word)
    | Called(message: CallMessage)
    | Released(result: CallResult)

  /** Answers may depend on the whole history of earlier requests. */
  datatype Host = Host(
    blockNumber: seq<Event> -> int,
    storage: (seq<Event>, Address, Word) -> Word,
    call: (seq<Event>, CallMessage) -> CallResult)

  /** What execute() is given; `malloc(n)` tells whether allocating n bytes succeeds. */
  datatype Env = Env(
    rev: Revision, recipient: Address, input: seq<byte>, code: seq<byte>,
    host: Host, malloc: nat -> bool)

  // ---- Word conversions ----

  function ToUint256(x: nat): Word
    requires x < UINT32
  {
    Zeros(28) + [x / 0x100_0000, x / 0x1_0000 % 256, x / 0x100 % 256, x % 256]
  }

  function AddressToUint256(a: Address): Word {
    Zeros(12) + a
  }

  function ToUint32(w: Word): (x: nat) {
    0x100_0000 * (w[28] as nat) + 0x1_0000 * (w[29] as nat) + 0x100 * (w[30] as nat) + w[31]
  }

  function ToAddress(w: Word): Address {
    w[12..]
  }

  // ---- Memory ----

  datatype Memory = Memory(data: seq<byte>, size: nat) {
    predicate Valid() {
      |data| == MEMORY_LIMIT && size <= MEMORY_LIMIT
    }
  }

  const EMPTY_MEMORY: Memory := Memory(Zeros(MEMORY_LIMIT), 0)

  /** The 32-bit sum of line 100. */
  function EndOf(offset: nat, n: nat): (end: nat)
    ensures offset + n < UINT32 ==> end == offset + n
  {
    (offset + n) % UINT32
  }

  /** What Memory::expand returns: a pointer into data, a null pointer, or a pointer past it. */
  datatype Region = Inside | TooLarge | OutOfBounds

  function RegionOf(offset: nat, n: nat): Region {
    if EndOf(offset, n) > MEMORY_LIMIT then TooLarge
    else if offset + n >= UINT32 then OutOfBounds
    else Inside
  }

  function Expand(mem: Memory, offset: nat, n: nat): Memory {
    if mem.size < EndOf(offset, n) <= MEMORY_LIMIT then mem.(size := EndOf(offset, n)) else mem
  }

  /** The n bytes of the region at offset. */
  function Slice(mem: Memory, offset: nat, n: nat): seq<byte>
    requires mem.Valid() && RegionOf(offset, n).Inside?
  {
    mem.data[offset..offset + n]
  }

  function Store(mem: Memory, offset: nat, bytes: seq<byte>): Memory
    requires mem.Valid() && RegionOf(offset, |bytes|).Inside?
  {
    var m := Expand(mem, offset, |bytes|);
    m.(data := m.data[..offset] + bytes + m.data[offset + |bytes|..])
  }

  // ---- The machine ----

  /** The interpreter's locals except gas_left; the last stack element is the top. */
  datatype Machine = Machine(pc: nat, stack: seq<Word>, mem: Memory, trace: seq<Event>) {
    predicate Valid() {
      |stack| <= STACK_LIMIT && mem.Valid()
    }
  }

  const INITIAL: Machine := Machine(0, [], EMPTY_MEMORY, [])

  datatype Reason = StackFault | CodeOverrun | RegionWrap

  /** `Halt` is a return statement; `keepsGas` tells whether it passes gas_left on. */
  datatype Effect =
    | Next(m: Machine)
    | Halt(status: Status, keepsGas: bool, output: seq<byte>, trace: seq<Event>)
    | Fault(reason: Reason, trace: seq<Event>)

  function Top(s: seq<Word>, k: nat): Word
    requires k < |s|
  {
    s[|s| - 1 - k]
  }

  function Drop(s: seq<Word>, k: nat): seq<Word>
    requires k <= |s|
  {
    s[..|s| - k]
  }

  /** Pop n items, push one, and advance pc by 1. */
  function Replace(m: Machine, n: nat, w: Word): Effect
    requires n <= |m.stack|
  {
    if |m.stack| - n >= STACK_LIMIT then Fault(StackFault, m.trace)
    else Next(m.(pc := m.pc + 1, stack := Drop(m.stack, n) + [w]))
  }

  function ExecAdd(m: Machine): Effect {
    if |m.stack| < 2 then Fault(StackFault, m.trace)
    else Replace(m, 2, ToUint256((ToUint32(Top(m.stack, 0)) + ToUint32(Top(m.stack, 1))) % UINT32))
  }

  function Min(a: nat, b: nat): nat {
    if a < b then a else b
  }

  /** The copy made by CALLDATALOAD: at most 32 bytes of input into a zero word. */
  function CallDataWord(input: seq<byte>, offset: nat): Word {
    if offset < |input| then
      var n := Min(|input| - offset, 32);
      input[offset..offset + n] + Zeros(32 - n)
    else
      ZERO_WORD
  }

  function ExecCallDataLoad(env: Env, m: Machine): Effect {
    if |m.stack| < 1 then Fault(StackFault, m.trace)
    else Replace(m, 1, CallDataWord(env.input, ToUint32(Top(m.stack, 0))))
  }

  function ExecNumber(env: Env, m: Machine): Effect {
    Replace(m.(trace := m.trace + [TxContextRead]), 0, ToUint256(env.host.blockNumber(m.trace) % UINT32))
  }

  function ExecMstore(m: Machine): Effect
    requires m.Valid()
  {
    if |m.stack| < 2 then Fault(StackFault, m.trace)
    else
      var index, value := ToUint32(Top(m.stack, 0)), Top(m.stack, 1);
      match RegionOf(index, 32)
      case OutOfBounds => Fault(RegionWrap, m.trace)
      case TooLarge => Halt(Failure, false, [], m.trace)
      case Inside => Next(m.(pc := m.pc + 1, stack := Drop(m.stack, 2), mem := Store(m.mem, index, value)))
  }

  function ExecSload(env: Env, m: Machine): Effect {
    if |m.stack| < 1 then Fault(StackFault, m.trace)
    else
      var index := Top(m.stack, 0);
      Replace(m.(trace := m.trace + [StorageRead(env.recipient, index)]), 1,
              env.host.storage(m.trace, env.recipient, index))
  }

  function ExecSstore(env: Env, m: Machine): Effect {
    if |m.stack| < 2 then Fault(StackFault, m.trace)
    else
      var event := StorageWrite(env.recipient, Top(m.stack, 0), Top(m.stack, 1));
      Next(m.(pc := m.pc + 1, stack := Drop(m.stack, 2), trace := m.trace + [event]))
  }

  /** PUSHn: n bytes after the opcode, right-aligned in a zero word. */
  function ExecPush(env: Env, m: Machine, n: nat): Effect
    requires n <= 32
  {
    if m.pc + 1 + n > |env.code| then Fault(CodeOverrun, m.trace)
    else Replace(m.(pc := m.pc + n), 0, Zeros(32 - n) + env.code[m.pc + 1..m.pc + 1 + n])
  }

  function ExecDup(m: Machine): Effect {
    if |m.stack| < 1 then Fault(StackFault, m.trace)
    else Replace(m, 0, Top(m.stack, 0))
  }

  /** The memory regions of a CALL: the callee's input and the place for its output. */
  datatype CallRegions = CallRegions(inOffset: nat, inSize: nat, outOffset: nat, outSize: nat) {
    /** One of the two pointers is null. */
    predicate TooLarge() {
      RegionOf(inOffset, inSize).TooLarge? || RegionOf(outOffset, outSize).TooLarge?
    }

    predicate Fit() {
      RegionOf(inOffset, inSize).Inside? && RegionOf(outOffset, outSize).Inside?
    }

    /** Memory after both regions have been requested. */
    function Expanded(mem: Memory): Memory {
      Expand(Expand(mem, inOffset, inSize), outOffset, outSize)
    }

    function Input(mem: Memory): seq<byte>
      requires mem.Valid() && Fit()
    {
      Slice(Expanded(mem), inOffset, inSize)
    }

    /** The part of the callee's output that fits the requested region. */
    function Returned(result: CallResult): seq<byte> {
      result.output[..Min(outSize, |result.output|)]
    }

    function After(mem: Memory, result: CallResult): (m: Memory)
      requires mem.Valid() && Fit()
      ensures m.Valid()
    {
      Store(Expanded(mem), outOffset, Returned(result))
    }
  }

  function CallRegionsOf(s: seq<Word>): CallRegions
    requires |s| >= 7
  {
    CallRegions(ToUint32(Top(s, 3)), ToUint32(Top(s, 4)), ToUint32(Top(s, 5)), ToUint32(Top(s, 6)))
  }

  /** The message a CALL sends: gas, recipient and value from the stack, the input from memory. */
  function CallMessageOf(m: Machine): CallMessage
    requires m.Valid() && |m.stack| >= 7 && CallRegionsOf(m.stack).Fit()
  {
    CallMessage(ToUint32(Top(m.stack, 0)), ToAddress(Top(m.stack, 1)), Top(m.stack, 2),
                CallRegionsOf(m.stack).Input(m.mem))
  }

  function CallEvents(message: CallMessage, result: CallResult): seq<Event> {
    [Called(message)] + if result.releasable then [Released(result)] else []
  }

  function ExecCall(env: Env, m: Machine): Effect
    requires m.Valid()
  {
    if |m.stack| < 7 then Fault(StackFault, m.trace)
    else
      var regions := CallRegionsOf(m.stack);
      if regions.TooLarge() then Halt(Failure, false, [], m.trace)
      else if !regions.Fit() then Fault(RegionWrap, m.trace)
      else
        var message := CallMessageOf(m);
        var result := env.host.call(m.trace, message);
        Replace(m.(mem := regions.After(m.mem, result), trace := m.trace + CallEvents(message, result)),
                7, ToUint256(if result.success then 1 else 0))
  }

  /** RETURN and REVERT: the output is a memory region. */
  function ExecEnd(m: Machine, status: Status): Effect
    requires m.Valid()
  {
    if |m.stack| < 2 then Fault(StackFault, m.trace)
    else
      var offset, size := ToUint32(Top(m.stack, 0)), ToUint32(Top(m.stack, 1));
      match RegionOf(offset, size)
      case OutOfBounds => Fault(RegionWrap, m.trace)
      case TooLarge => Halt(Failure, false, [], m.trace)
      case Inside => Halt(status, true, Slice(m.mem, offset, size), m.trace)
  }

  /** One execution of the switch. */
  function Exec(env: Env, m: Machine): Effect
    requires m.Valid() && m.pc < |env.code|
  {
    var op := env.code[m.pc];
    if op == OP_STOP then Halt(Success, true, [], m.trace)
    else if op == OP_ADD then ExecAdd(m)
    else if op == OP_ADDRESS then Replace(m, 0, AddressToUint256(env.recipient))
    else if op == OP_CALLDATALOAD then ExecCallDataLoad(env, m)
    else if op == OP_NUMBER then ExecNumber(env, m)
    else if op == OP_MSTORE then ExecMstore(m)
    else if op == OP_SLOAD then ExecSload(env, m)
    else if op == OP_SSTORE then ExecSstore(env, m)
    else if op == OP_MSIZE then Replace(m, 0, ToUint256(m.mem.size))
    else if OP_PUSH1 <= op <= OP_PUSH32 then ExecPush(env, m, op - OP_PUSH1 + 1)
    else if op == OP_DUP1 then ExecDup(m)
    else if op == OP_CALL then ExecCall(env, m)
    else if op == OP_RETURN then ExecEnd(m, Success)
    else if op == OP_REVERT && env.rev >= BYZANTIUM then ExecEnd(m, Revert)
    else Halt(UndefinedInstruction, false, [], m.trace)
  }

  /** A step stays valid, moves pc forward within the code and only appends to the trace. */
  ghost predicate Advances(env: Env, m: Machine, e: Effect) {
    match e
    case Next(m') => m'.Valid() && m.pc < m'.pc <= |env.code| && m.trace <= m'.trace
    case Halt(_, _, _, trace) => m.trace <= trace
    case Fault(_, trace) => m.trace <= trace
  }

  lemma CallAdvances(env: Env, m: Machine)
    requires m.Valid() && m.pc < |env.code|
    ensures Advances(env, m, ExecCall(env, m))
  {
  }

  lemma RegionsAdvance(env: Env, m: Machine)
    requires m.Valid() && m.pc < |env.code|
    ensures Advances(env, m, ExecMstore(m))
    ensures Advances(env, m, ExecEnd(m, Success)) && Advances(env, m, ExecEnd(m, Revert))
  {
  }

  lemma ExecAdvances(env: Env, m: Machine)
    requires m.Valid() && m.pc < |env.code|
    ensures Advances(env, m, Exec(env, m))
  {
    var op := env.code[m.pc];
    if op == OP_CALL {
      CallAdvances(env, m);
    } else if op in {OP_MSTORE, OP_RETURN, OP_REVERT} {
      RegionsAdvance(env, m);
    }
  }

  // ---- Results and whole runs ----

  /** evmc_result; `output` is None for a null output_data. */
  datatype Result = Result(status: Status, gasLeft: int, gasRefund: int, output: Option<seq<byte>>)

  function MakeResult(malloc: nat -> bool, status: Status, gasLeft: int, gasRefund: int, output: seq<byte>): Result {
    if |output| != 0 && !malloc(|output|) then Result(OutOfMemory, 0, 0, None)
    else Result(status, gasLeft, gasRefund, if |output| != 0 then Some(output) else None)
  }

  datatype Outcome =
    | Returned(result: Result, trace: seq<Event>)
    | Faulted(reason: Reason, trace: seq<Event>)

  /** The interpreter loop from a loop head with gas_left == gas. */
  function Run(env: Env, gas: int, m: Machine): Outcome
    requires m.Valid() && m.pc <= |env.code|
    decreases |env.code| - m.pc
  {
    if m.pc == |env.code| then Returned(MakeResult(env.malloc, Success, gas, 0, []), m.trace)
    else if gas - 1 < 0 then Returned(MakeResult(env.malloc, OutOfGas, 0, 0, []), m.trace)
    else
      ExecAdvances(env, m);
      match Exec(env, m)
      case Next(m') => Run(env, gas - 1, m')
      case Halt(status, keepsGas, output, trace) =>
        Returned(MakeResult(env.malloc, status, if keepsGas then gas - 1 else 0, 0, output), trace)
      case Fault(reason, trace) => Faulted(reason, trace)
  }
}
