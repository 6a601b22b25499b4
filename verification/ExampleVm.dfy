/**
 The interpreter of examples/example_vm/example_vm.cpp in its own form: a stack and a memory
 updated in place and a loop over the code, proved to compute `VmSpec.Run`.
 */
module ExampleVm {
  import opened Bytes
  import opened VmSpec

  class Stack {
    const items: array<Word>
    var pointer: nat  // index of the first empty slot

    ghost predicate Valid()
      reads this
    {
      items.Length == STACK_LIMIT && pointer <= STACK_LIMIT
    }

    ghost function Contents(): seq<Word>
      reads this, items
      requires Valid()
    {
      items[..pointer]
    }

    constructor ()
      ensures Valid() && fresh(items) && Contents() == []
    {
      items := new Word[STACK_LIMIT](_ => ZERO_WORD);
      pointer := 0;
    }

    method Pop() returns (item: Word)
      requires Valid() && Contents() != []
      modifies this
      ensures Valid() && item == Top(old(Contents()), 0) && Contents() == Drop(old(Contents()), 1)
    {
      pointer := pointer - 1;
      item := items[pointer];
    }

    method Push(value: Word)
      requires Valid() && |Contents()| < STACK_LIMIT
      modifies this, items
      ensures Valid() && Contents() == old(Contents()) + [value]
    {
      items[pointer] := value;
      pointer := pointer + 1;
    }
  }

  class VmMemory {
    var size: nat
    const data: array<byte>

    ghost predicate Valid()
      reads this
    {
      data.Length == MEMORY_LIMIT && size <= MEMORY_LIMIT
    }

    ghost function Contents(): Memory
      reads this, data
    {
      Memory(data[..], size)
    }

    constructor ()
      ensures Valid() && fresh(data) && Contents() == EMPTY_MEMORY
    {
      size := 0;
      data := new byte[MEMORY_LIMIT](_ => 0);
      new;
      assert data[..] == Zeros(MEMORY_LIMIT);
    }

    /** Memory::expand; the result is the offset &data[offset] was taken at, None for a null pointer. */
    method ExpandRegion(offset: nat, regionSize: nat) returns (region: Option<nat>)
      requires Valid()
      modifies this
      ensures Valid() && Contents() == Expand(old(Contents()), offset, regionSize)
      ensures region == if RegionOf(offset, regionSize).TooLarge? then None else Some(offset)
    {
      var newSize := (offset + regionSize) % UINT32;
      if newSize > data.Length {
        return None;
      }
      if newSize > size {
        size := newSize;
      }
      return Some(offset);
    }

    /** Memory::store. */
    method StoreBytes(offset: nat, value: seq<byte>) returns (ok: bool)
      requires Valid() && !RegionOf(offset, |value|).OutOfBounds?
      modifies this, data
      ensures Valid() && ok == RegionOf(offset, |value|).Inside?
      ensures Contents() == if ok then Store(old(Contents()), offset, value) else old(Contents())
    {
      var p := ExpandRegion(offset, |value|);
      if p == None {
        return false;
      }
      forall i | 0 <= i < |value| {
        data[p.value + i] := value[i];
      }
      return true;
    }
  }

  /** The stack and the memory of one execution are separate objects. */
  ghost predicate Separate(stack: Stack, memory: VmMemory) {
    stack.items as object != memory.data
  }

  ghost function MachineOf(pc: nat, stack: Stack, memory: VmMemory, trace: seq<Event>): (m: Machine)
    requires stack.Valid() && memory.Valid()
    reads stack, stack.items, memory, memory.data
    ensures m.Valid()
  {
    Machine(pc, stack.Contents(), memory.Contents(), trace)
  }

  method Pop2(stack: Stack) returns (a: Word, b: Word)
    requires stack.Valid() && |stack.Contents()| >= 2
    modifies stack
    ensures stack.Valid() && stack.Contents() == Drop(old(stack.Contents()), 2)
    ensures a == Top(old(stack.Contents()), 0) && b == Top(old(stack.Contents()), 1)
  {
    a := stack.Pop();
    b := stack.Pop();
  }

  /** Pops the operands of CALL one by one. */
  method PopCall(stack: Stack) returns (gas: Word, recipient: Word, value: Word, regions: CallRegions)
    requires stack.Valid() && |stack.Contents()| >= 7
    modifies stack
    ensures stack.Valid() && stack.Contents() == Drop(old(stack.Contents()), 7)
    ensures gas == Top(old(stack.Contents()), 0) && recipient == Top(old(stack.Contents()), 1)
    ensures value == Top(old(stack.Contents()), 2) && regions == CallRegionsOf(old(stack.Contents()))
  {
    gas, recipient := Pop2(stack);
    value := stack.Pop();
    var inOffset, inSize := Pop2(stack);
    var outOffset, outSize := Pop2(stack);
    regions := CallRegions(ToUint32(inOffset), ToUint32(inSize), ToUint32(outOffset), ToUint32(outSize));
  }

  /** Requests both memory regions of a CALL; `ok` is false when one is a null pointer. */
  method ExpandCallRegions(regions: CallRegions, memory: VmMemory) returns (ok: bool, input: seq<byte>)
    requires memory.Valid() && (regions.TooLarge() || regions.Fit())
    modifies memory
    ensures memory.Valid() && memory.Contents() == regions.Expanded(old(memory.Contents()))
    ensures ok == regions.Fit() && (ok ==> input == regions.Input(old(memory.Contents())))
  {
    var inputData := memory.ExpandRegion(regions.inOffset, regions.inSize);
    var outputPtr := memory.ExpandRegion(regions.outOffset, regions.outSize);
    ok, input := inputData != None && outputPtr != None, [];
    if ok {
      input := memory.data[inputData.value..inputData.value + regions.inSize];
      assert input == Slice(memory.Contents(), regions.inOffset, regions.inSize);
    }
  }

  /** Pushes the success flag and copies what fits of the output, after the regions were expanded. */
  method AcceptResult(regions: CallRegions, result: CallResult, stack: Stack, memory: VmMemory)
    requires stack.Valid() && memory.Valid() && Separate(stack, memory)
    requires |stack.Contents()| < STACK_LIMIT && regions.Fit()
    modifies stack, stack.items, memory, memory.data
    ensures stack.Valid() && memory.Valid()
    ensures stack.Contents() == old(stack.Contents()) + [ToUint256(if result.success then 1 else 0)]
    ensures memory.Contents() == Store(old(memory.Contents()), regions.outOffset, regions.Returned(result))
  {
    stack.Push(ToUint256(if result.success then 1 else 0));
    var outputSize := regions.outSize;
    if outputSize > |result.output| {
      outputSize := |result.output|;
    }
    assert result.output[..outputSize] == regions.Returned(result);
    var _ := memory.StoreBytes(regions.outOffset, result.output[..outputSize]);
  }

  /** The CALL step put together from its parts. */
  lemma CallParts(env: Env, m: Machine, regions: CallRegions, message: CallMessage, result: CallResult)
    requires m.Valid() && |m.stack| >= 7 && regions == CallRegionsOf(m.stack) && regions.Fit()
    requires message == CallMessageOf(m)
    requires result == env.host.call(m.trace, message)
    ensures ExecCall(env, m) ==
            Next(Machine(m.pc + 1, Drop(m.stack, 7) + [ToUint256(if result.success then 1 else 0)],
                         regions.After(m.mem, result), m.trace + CallEvents(message, result)))
  {
  }

  /** The host call, what it leaves on the stack and in memory, and the release of its result. */
  method FinishCall(env: Env, regions: CallRegions, message: CallMessage, stack: Stack, memory: VmMemory,
                    trace: seq<Event>)
      returns (trace': seq<Event>)
    requires stack.Valid() && memory.Valid() && Separate(stack, memory)
    requires |stack.Contents()| < STACK_LIMIT && regions.Fit()
    modifies stack, stack.items, memory, memory.data
    ensures stack.Valid() && memory.Valid()
    ensures var result := env.host.call(trace, message);
            && stack.Contents() == old(stack.Contents()) + [ToUint256(if result.success then 1 else 0)]
            && memory.Contents() == Store(old(memory.Contents()), regions.outOffset, regions.Returned(result))
            && trace' == trace + CallEvents(message, result)
  {
    var result := env.host.call(trace, message);
    AcceptResult(regions, result, stack, memory);
    trace' := trace + [Called(message)];
    if result.releasable {
      trace' := trace' + [Released(result)];
    }
    assert trace' == trace + CallEvents(message, result);
  }

  /** case OP_CALL; `halted` reports the EVMC_FAILURE return. */
  method Call(env: Env, pc: nat, stack: Stack, memory: VmMemory, trace: seq<Event>)
      returns (trace': seq<Event>, halted: bool)
    requires stack.Valid() && memory.Valid() && Separate(stack, memory)
    requires !ExecCall(env, MachineOf(pc, stack, memory, trace)).Fault?
    modifies stack, stack.items, memory, memory.data
    ensures stack.Valid() && memory.Valid()
    ensures old(ExecCall(env, MachineOf(pc, stack, memory, trace))) ==
            if halted then Halt(Failure, false, [], trace') else Next(MachineOf(pc + 1, stack, memory, trace'))
  {
    trace', halted := trace, false;
    ghost var m := MachineOf(pc, stack, memory, trace);
    var gas, recipient, value, regions := PopCall(stack);
    var ok, input := ExpandCallRegions(regions, memory);
    if !ok {
      halted := true;
      return;
    }
    var message := CallMessage(ToUint32(gas), ToAddress(recipient), value, input);
    CallParts(env, m, regions, message, env.host.call(trace, message));
    trace' := FinishCall(env, regions, message, stack, memory, trace);
  }

  /** OP_RETURN and OP_REVERT; None for the EVMC_FAILURE return. */
  method OutputRegion(pc: nat, stack: Stack, memory: VmMemory, trace: seq<Event>, ghost status: Status)
      returns (output: Option<seq<byte>>)
    requires stack.Valid() && memory.Valid()
    requires !ExecEnd(MachineOf(pc, stack, memory, trace), status).Fault?
    modifies stack, memory
    ensures stack.Valid() && memory.Valid()
    ensures old(ExecEnd(MachineOf(pc, stack, memory, trace), status)) ==
            if output == None then Halt(Failure, false, [], trace) else Halt(status, true, output.value, trace)
  {
    ghost var mem := memory.Contents();
    var offset, size := Pop2(stack);
    var region := memory.ExpandRegion(ToUint32(offset), ToUint32(size));
    if region == None {
      return None;
    }
    assert memory.data[..] == mem.data;
    output := Some(memory.data[region.value..region.value + ToUint32(size)]);
  }

  /** case OP_MSTORE. */
  method Mstore(pc: nat, stack: Stack, memory: VmMemory, trace: seq<Event>) returns (halted: bool)
    requires stack.Valid() && memory.Valid() && Separate(stack, memory)
    requires !ExecMstore(MachineOf(pc, stack, memory, trace)).Fault?
    modifies stack, memory, memory.data
    ensures stack.Valid() && memory.Valid()
    ensures old(ExecMstore(MachineOf(pc, stack, memory, trace))) ==
            if halted then Halt(Failure, false, [], trace) else Next(MachineOf(pc + 1, stack, memory, trace))
  {
    var index, value := Pop2(stack);
    var ok := memory.StoreBytes(ToUint32(index), value);
    halted := !ok;
  }

  predicate IsCompute(op: byte) {
    op in {OP_ADD, OP_ADDRESS, OP_CALLDATALOAD, OP_MSIZE}
  }

  /** case OP_PUSH1 to OP_PUSH32. */
  method PushImmediate(env: Env, pc: nat, stack: Stack, memory: VmMemory, ghost trace: seq<Event>) returns (pc': nat)
    requires stack.Valid() && memory.Valid() && pc < |env.code| && Separate(stack, memory)
    requires OP_PUSH1 <= env.code[pc] <= OP_PUSH32
    requires !ExecPush(env, MachineOf(pc, stack, memory, trace), env.code[pc] - OP_PUSH1 + 1).Fault?
    modifies stack, stack.items
    ensures stack.Valid()
    ensures old(ExecPush(env, MachineOf(pc, stack, memory, trace), env.code[pc] - OP_PUSH1 + 1)) ==
            Next(MachineOf(pc', stack, memory, trace))
  {
    var n := env.code[pc] - OP_PUSH1 + 1;
    stack.Push(Zeros(32 - n) + env.code[pc + 1..pc + 1 + n]);
    pc' := pc + 1 + n;
  }

  /** case OP_DUP1. */
  method Dup(pc: nat, stack: Stack, memory: VmMemory, ghost trace: seq<Event>)
    requires stack.Valid() && memory.Valid() && Separate(stack, memory)
    requires !ExecDup(MachineOf(pc, stack, memory, trace)).Fault?
    modifies stack, stack.items
    ensures stack.Valid()
    ensures old(ExecDup(MachineOf(pc, stack, memory, trace))) == Next(MachineOf(pc + 1, stack, memory, trace))
  {
    var value := stack.Pop();
    stack.Push(value);
    stack.Push(value);
  }

  /** The cases that push a word computed from the operands and the message. */
  method Compute(env: Env, pc: nat, stack: Stack, memory: VmMemory, ghost trace: seq<Event>)
    requires stack.Valid() && memory.Valid() && pc < |env.code| && Separate(stack, memory)
    requires IsCompute(env.code[pc])
    requires !Exec(env, MachineOf(pc, stack, memory, trace)).Fault?
    modifies stack, stack.items
    ensures stack.Valid()
    ensures old(Exec(env, MachineOf(pc, stack, memory, trace))) == Next(MachineOf(pc + 1, stack, memory, trace))
  {
    var value: Word;
    var op := env.code[pc];
    if op == OP_ADD {
      var a, b := Pop2(stack);
      value := ToUint256((ToUint32(a) + ToUint32(b)) % UINT32);
    } else if op == OP_ADDRESS {
      value := AddressToUint256(env.recipient);
    } else if op == OP_CALLDATALOAD {
      var offset := stack.Pop();
      value := CallDataWord(env.input, ToUint32(offset));
    } else {
      value := ToUint256(memory.size);
    }
    stack.Push(value);
  }

  /** The cases that push what the host answers: OP_NUMBER and OP_SLOAD. */
  method AskHost(env: Env, pc: nat, stack: Stack, memory: VmMemory, trace: seq<Event>) returns (trace': seq<Event>)
    requires stack.Valid() && memory.Valid() && pc < |env.code| && Separate(stack, memory)
    requires env.code[pc] == OP_NUMBER || env.code[pc] == OP_SLOAD
    requires !Exec(env, MachineOf(pc, stack, memory, trace)).Fault?
    modifies stack, stack.items
    ensures stack.Valid()
    ensures old(Exec(env, MachineOf(pc, stack, memory, trace))) == Next(MachineOf(pc + 1, stack, memory, trace'))
  {
    if env.code[pc] == OP_NUMBER {
      var number := env.host.blockNumber(trace);
      trace' := trace + [TxContextRead];
      stack.Push(ToUint256(number % UINT32));
    } else {
      var index := stack.Pop();
      trace' := trace + [StorageRead(env.recipient, index)];
      stack.Push(env.host.storage(trace, env.recipient, index));
    }
  }

  /** One pass through the switch: either the next pc or the result that is returned. */
  method Instruction(env: Env, pc: nat, gasLeft: int, stack: Stack, memory: VmMemory, trace: seq<Event>)
      returns (pc': nat, trace': seq<Event>, result: Option<Result>)
    requires stack.Valid() && memory.Valid() && Separate(stack, memory) && pc < |env.code|
    requires !Exec(env, MachineOf(pc, stack, memory, trace)).Fault?
    modifies stack, stack.items, memory, memory.data
    ensures stack.Valid() && memory.Valid()
    ensures match old(Exec(env, MachineOf(pc, stack, memory, trace)))
            case Next(m) => result == None && m == MachineOf(pc', stack, memory, trace')
            case Halt(status, keepsGas, output, t) =>
              result == Some(MakeResult(env.malloc, status, if keepsGas then gasLeft else 0, 0, output)) && trace' == t
            case Fault(_, _) => false
  {
    pc', trace', result := pc + 1, trace, None;
    var op := env.code[pc];
    if op == OP_STOP {
      result := Some(MakeResult(env.malloc, Success, gasLeft, 0, []));
    } else if IsCompute(op) {
      Compute(env, pc, stack, memory, trace);
    } else if op == OP_DUP1 {
      Dup(pc, stack, memory, trace);
    } else if OP_PUSH1 <= op <= OP_PUSH32 {
      pc' := PushImmediate(env, pc, stack, memory, trace);
    } else if op == OP_NUMBER || op == OP_SLOAD {
      trace' := AskHost(env, pc, stack, memory, trace);
    } else if op == OP_MSTORE {
      var halted := Mstore(pc, stack, memory, trace);
      result := if halted then Some(MakeResult(env.malloc, Failure, 0, 0, [])) else None;
    } else if op == OP_SSTORE {
      var index, value := Pop2(stack);
      trace' := trace + [StorageWrite(env.recipient, index, value)];
    } else if op == OP_CALL {
      var halted;
      trace', halted := Call(env, pc, stack, memory, trace);
      result := if halted then Some(MakeResult(env.malloc, Failure, 0, 0, [])) else None;
    } else if op == OP_RETURN || (op == OP_REVERT && env.rev >= BYZANTIUM) {
      var status := if op == OP_RETURN then Success else Revert;
      var output := OutputRegion(pc, stack, memory, trace, status);
      result := Some(if output == None then MakeResult(env.malloc, Failure, 0, 0, [])
                     else MakeResult(env.malloc, status, gasLeft, 0, output.value));
    } else {
      result := Some(MakeResult(env.malloc, UndefinedInstruction, 0, 0, []));
    }
  }

  /** execute(): every run that stays inside the C++ arrays computes `Run`. */
  method Execute(env: Env, gas: int) returns (result: Result, trace: seq<Event>)
    requires Run(env, gas, INITIAL).Returned?
    ensures Run(env, gas, INITIAL) == Returned(result, trace)
  {
    var gasLeft := gas;
    var stack := new Stack();
    var memory := new VmMemory();
    var pc := 0;
    trace := [];
    while pc < |env.code|
      invariant pc <= |env.code|
      invariant fresh(stack) && fresh(stack.items) && fresh(memory) && fresh(memory.data)
      invariant stack.Valid() && memory.Valid() && Separate(stack, memory)
      invariant Run(env, gas, INITIAL) == Run(env, gasLeft, MachineOf(pc, stack, memory, trace))
      decreases |env.code| - pc
    {
      gasLeft := gasLeft - 1;
      if gasLeft < 0 {
        result := MakeResult(env.malloc, OutOfGas, 0, 0, []);
        return;
      }
      ExecAdvances(env, MachineOf(pc, stack, memory, trace));
      var halt;
      pc, trace, halt := Instruction(env, pc, gasLeft, stack, memory, trace);
      if halt != None {
        result := halt.value;
        return;
      }
    }
    result := MakeResult(env.malloc, Success, gasLeft, 0, []);
  }
}
