/**
 Memory as a function of its history: the size is the largest end of a region requested so
 far and every byte is the last one written to it.
 */
module MemoryHistory {
  import opened Bytes
  import opened VmSpec
  import opened StackCheck

  /** One use of Memory: expand() alone, or store(). */
  datatype MemOp = Request(offset: nat, size: nat) | Write(offset: nat, bytes: seq<byte>)

  function OpSize(op: MemOp): nat {
    match op
    case Request(_, size) => size
    case Write(_, bytes) => |bytes|
  }

  /** expand() did not return null; a store must also lie inside. */
  predicate Succeeds(op: MemOp) {
    if op.Write? then RegionOf(op.offset, OpSize(op)).Inside? else !RegionOf(op.offset, OpSize(op)).TooLarge?
  }

  function OpEnd(op: MemOp): nat {
    EndOf(op.offset, OpSize(op))
  }

  function Apply(mem: Memory, op: MemOp): (m: Memory)
    requires mem.Valid()
    ensures m.Valid()
  {
    match op
    case Request(offset, size) => Expand(mem, offset, size)
    case Write(offset, bytes) => if Succeeds(op) then Store(mem, offset, bytes) else mem
  }

  function ApplyAll(ops: seq<MemOp>): (m: Memory)
    ensures m.Valid()
  {
    if ops == [] then EMPTY_MEMORY else Apply(ApplyAll(ops[..|ops| - 1]), ops[|ops| - 1])
  }

  // ---- What the history says ----

  /** The largest end of a successful request. */
  function LargestEnd(ops: seq<MemOp>): nat {
    if ops == [] then 0
    else
      var op, before := ops[|ops| - 1], LargestEnd(ops[..|ops| - 1]);
      if Succeeds(op) && OpEnd(op) > before then OpEnd(op) else before
  }

  predicate Writes(op: MemOp, i: nat) {
    op.Write? && Succeeds(op) && op.offset <= i < op.offset + |op.bytes|
  }

  /** The byte most recently written at i, 0 if none. */
  function LastWritten(ops: seq<MemOp>, i: nat): byte {
    if ops == [] then 0
    else
      var op := ops[|ops| - 1];
      if Writes(op, i) then op.bytes[i - op.offset] else LastWritten(ops[..|ops| - 1], i)
  }

  /** Size and contents after any sequence of uses. */
  lemma {:induction false} MemoryIsItsHistory(ops: seq<MemOp>)
    ensures var m := ApplyAll(ops);
            && m.size == LargestEnd(ops) <= MEMORY_LIMIT
            && (forall i | 0 <= i < MEMORY_LIMIT :: m.data[i] == LastWritten(ops, i))
            && (forall i | m.size <= i < MEMORY_LIMIT :: m.data[i] == 0)
  {
    if ops != [] {
      MemoryIsItsHistory(ops[..|ops| - 1]);
    }
  }

  /** The largest end bounds every successful request and is attained by one of them. */
  lemma {:induction false} LargestEndIsMaximum(ops: seq<MemOp>)
    ensures forall op | op in ops && Succeeds(op) :: OpEnd(op) <= LargestEnd(ops)
    ensures LargestEnd(ops) > 0 ==>
      exists op :: op in ops && Succeeds(op) && OpEnd(op) == LargestEnd(ops)
  {
    if ops != [] {
      var front, last := ops[..|ops| - 1], ops[|ops| - 1];
      LargestEndIsMaximum(front);
      assert ops == front + [last];
    }
  }

  /** Memory never shrinks. */
  lemma {:induction false} SizeOnlyGrows(ops: seq<MemOp>, more: seq<MemOp>)
    ensures ApplyAll(ops).size <= ApplyAll(ops + more).size
    decreases |more|
  {
    if more == [] {
      assert ops + more == ops;
    } else {
      assert (ops + more)[..|ops + more| - 1] == ops + more[..|more| - 1];
      SizeOnlyGrows(ops, more[..|more| - 1]);
    }
  }

  // ---- The interpreter's use of memory ----

  /** The memory operations of one instruction that continues. */
  function OpsOf(env: Env, m: Machine): seq<MemOp>
    requires m.Valid() && m.pc < |env.code| && Exec(env, m).Next?
  {
    var op := env.code[m.pc];
    if op == OP_MSTORE then [Write(ToUint32(Top(m.stack, 0)), Top(m.stack, 1))]
    else if op == OP_CALL then CallOps(env, m)
    else []
  }

  function CallOps(env: Env, m: Machine): seq<MemOp>
    requires m.Valid() && ExecCall(env, m).Next?
  {
    var regions := CallRegionsOf(m.stack);
    [Request(regions.inOffset, regions.inSize), Request(regions.outOffset, regions.outSize),
     Write(regions.outOffset, regions.Returned(CallResultOf(env, m)))]
  }

  /** What the host answers to the CALL at the top of this stack. */
  function CallResultOf(env: Env, m: Machine): CallResult
    requires m.Valid() && |m.stack| >= 7 && CallRegionsOf(m.stack).Fit()
  {
    env.host.call(m.trace, CallMessageOf(m))
  }

  /** The memory operations of a run up to its last loop head. */
  function History(env: Env, ms: seq<Machine>): seq<MemOp>
    requires Heads(env, ms)
  {
    var n := |ms| - 1;
    if n == 0 then []
    else
      assert Follows(env, ms[n - 1], ms[n]);
      History(env, ms[..n]) + OpsOf(env, ms[n - 1])
  }

  lemma ApplyOne(ops: seq<MemOp>, op: MemOp)
    ensures ApplyAll(ops + [op]) == Apply(ApplyAll(ops), op)
  {
    assert (ops + [op])[..|ops|] == ops;
  }

  lemma ApplyThree(ops: seq<MemOp>, a: MemOp, b: MemOp, c: MemOp)
    ensures ApplyAll(ops + [a, b, c]) == Apply(Apply(Apply(ApplyAll(ops), a), b), c)
  {
    ApplyOne(ops, a);
    ApplyOne(ops + [a], b);
    ApplyOne(ops + [a] + [b], c);
    assert ops + [a, b, c] == ops + [a] + [b] + [c];
  }

  lemma CallAppliesOps(env: Env, m: Machine)
    requires m.Valid() && ExecCall(env, m).Next?
    ensures var o := CallOps(env, m);
            ExecCall(env, m).m.mem == Apply(Apply(Apply(m.mem, o[0]), o[1]), o[2])
  {
    CallMemory(env, m);
    RegionsApply(CallRegionsOf(m.stack), m.mem, CallResultOf(env, m));
  }

  lemma CallMemory(env: Env, m: Machine)
    requires m.Valid() && ExecCall(env, m).Next?
    ensures |m.stack| >= 7 && CallRegionsOf(m.stack).Fit()
    ensures ExecCall(env, m).m.mem == CallRegionsOf(m.stack).After(m.mem, CallResultOf(env, m))
  {
  }

  lemma RegionsApply(regions: CallRegions, mem: Memory, result: CallResult)
    requires mem.Valid() && regions.Fit()
    ensures regions.After(mem, result) ==
            Apply(Apply(Apply(mem, Request(regions.inOffset, regions.inSize)),
                        Request(regions.outOffset, regions.outSize)),
                  Write(regions.outOffset, regions.Returned(result)))
  {
  }

  lemma StepAppliesOps(env: Env, m: Machine, ops: seq<MemOp>)
    requires m.Valid() && m.pc < |env.code| && Exec(env, m).Next? && m.mem == ApplyAll(ops)
    ensures Exec(env, m).m.mem == ApplyAll(ops + OpsOf(env, m))
  {
    var o := OpsOf(env, m);
    if env.code[m.pc] == OP_MSTORE {
      ApplyOne(ops, o[0]);
    } else if env.code[m.pc] == OP_CALL {
      CallAppliesOps(env, m);
      ApplyThree(ops, o[0], o[1], o[2]);
    } else {
      OtherInstructionsKeepMemory(env, m);
      assert ops + o == ops;
    }
  }

  lemma OtherInstructionsKeepMemory(env: Env, m: Machine)
    requires m.Valid() && m.pc < |env.code| && Exec(env, m).Next?
    requires env.code[m.pc] != OP_MSTORE && env.code[m.pc] != OP_CALL
    ensures Exec(env, m).m.mem == m.mem
  {
  }

  /** At every loop head memory is what the run's own stores and requests make of it. */
  lemma {:induction false} RunMemoryIsItsHistory(env: Env, ms: seq<Machine>)
    requires Heads(env, ms)
    ensures Last(ms).mem == ApplyAll(History(env, ms))
  {
    var n := |ms| - 1;
    if n > 0 {
      assert Follows(env, ms[n - 1], ms[n]);
      RunMemoryIsItsHistory(env, ms[..n]);
      StepAppliesOps(env, ms[n - 1], History(env, ms[..n]));
    }
  }

  /**
   CALL makes the whole requested output region part of memory but writes only
   min(requested, returned) bytes of it.
   */
  lemma CallTouchesOnlyItsOutput(env: Env, m: Machine)
    requires m.Valid() && ExecCall(env, m).Next?
    ensures var regions := CallRegionsOf(m.stack);
            var after := ExecCall(env, m).m.mem;
            var output := CallResultOf(env, m).output;
            var written := Min(regions.outSize, |output|);
            && after.size >= regions.outOffset + regions.outSize && after.size >= regions.inOffset + regions.inSize
            && (forall i | 0 <= i < written :: after.data[regions.outOffset + i] == output[i])
            && (forall i | 0 <= i < MEMORY_LIMIT && !(regions.outOffset <= i < regions.outOffset + written) ::
                  after.data[i] == m.mem.data[i])
  {
    CallMemory(env, m);
    AfterTouchesOnlyOutput(CallRegionsOf(m.stack), m.mem, CallResultOf(env, m));
  }

  lemma AfterTouchesOnlyOutput(regions: CallRegions, mem: Memory, result: CallResult)
    requires mem.Valid() && regions.Fit()
    ensures var after := regions.After(mem, result); var written := |regions.Returned(result)|;
            && after.size >= regions.outOffset + regions.outSize && after.size >= regions.inOffset + regions.inSize
            && (forall i | 0 <= i < written :: after.data[regions.outOffset + i] == result.output[i])
            && (forall i | 0 <= i < MEMORY_LIMIT && !(regions.outOffset <= i < regions.outOffset + written) ::
                  after.data[i] == mem.data[i])
  {
  }

  /** n bytes of memory at offset, as the history tells them. */
  function Remembered(ops: seq<MemOp>, offset: nat, n: nat): seq<byte> {
    seq<byte>(n, i requires 0 <= i => LastWritten(ops, offset + i))
  }

  lemma SliceIsRemembered(mem: Memory, ops: seq<MemOp>, offset: nat, n: nat)
    requires mem.Valid() && mem.data == ApplyAll(ops).data && RegionOf(offset, n).Inside?
    ensures Slice(mem, offset, n) == Remembered(ops, offset, n)
  {
    MemoryIsItsHistory(ops);
  }

  lemma OutputIsRegion(env: Env, m: Machine)
    requires m.Valid() && m.pc < |env.code| && env.code[m.pc] in {OP_RETURN, OP_REVERT}
    requires Exec(env, m).Halt? && Exec(env, m).keepsGas
    ensures |m.stack| >= 2 && RegionOf(ToUint32(Top(m.stack, 0)), ToUint32(Top(m.stack, 1))).Inside?
    ensures Exec(env, m).output == Slice(m.mem, ToUint32(Top(m.stack, 0)), ToUint32(Top(m.stack, 1)))
  {
  }

  /** The output of a RETURN or REVERT is what the run last wrote to its region. */
  lemma OutputIsLastWritten(env: Env, ms: seq<Machine>, m: Machine)
    requires Heads(env, ms) && m == Last(ms) && m.Valid() && m.pc < |env.code|
    requires env.code[m.pc] in {OP_RETURN, OP_REVERT} && Exec(env, m).Halt? && Exec(env, m).keepsGas
    ensures |m.stack| >= 2
    ensures Exec(env, m).output ==
            Remembered(History(env, ms), ToUint32(Top(m.stack, 0)), ToUint32(Top(m.stack, 1)))
  {
    OutputIsRegion(env, m);
    RunMemoryIsItsHistory(env, ms);
    SliceIsRemembered(m.mem, History(env, ms), ToUint32(Top(m.stack, 0)), ToUint32(Top(m.stack, 1)));
  }

  lemma RunHalts(env: Env, gas: int, m: Machine)
    requires m.Valid() && m.pc < |env.code| && gas >= 1 && Exec(env, m).Halt? && Exec(env, m).keepsGas
    ensures Run(env, gas, m) ==
            Returned(MakeResult(env.malloc, Exec(env, m).status, gas - 1, 0, Exec(env, m).output), Exec(env, m).trace)
  {
  }

  /**
   The result of a whole execution that reaches a RETURN or REVERT and has the gas for it: the
   bytes the run last wrote to the region on top of the stack, and one gas less for every instruction.
   */
  lemma ResultIsLastWritten(env: Env, gas: nat, ms: seq<Machine>, m: Machine)
    requires Heads(env, ms) && m == Last(ms) && m.Valid() && m.pc < |env.code| && gas >= |ms|
    requires env.code[m.pc] in {OP_RETURN, OP_REVERT} && Exec(env, m).Halt? && Exec(env, m).keepsGas
    ensures |m.stack| >= 2
    ensures var output := Remembered(History(env, ms), ToUint32(Top(m.stack, 0)), ToUint32(Top(m.stack, 1)));
            Run(env, gas, INITIAL) ==
            Returned(MakeResult(env.malloc, if env.code[m.pc] == OP_RETURN then Success else Revert,
                                gas - |ms|, 0, output), m.trace)
  {
    OutputIsLastWritten(env, ms, m);
    HeadsAreReached(env, gas, ms);
    RunHalts(env, gas - (|ms| - 1), m);
    EndingStatus(env, m);
  }

  lemma EndingStatus(env: Env, m: Machine)
    requires m.Valid() && m.pc < |env.code|
    requires env.code[m.pc] in {OP_RETURN, OP_REVERT} && Exec(env, m).Halt? && Exec(env, m).keepsGas
    ensures Exec(env, m).status == (if env.code[m.pc] == OP_RETURN then Success else Revert)
    ensures Exec(env, m).trace == m.trace
  {
  }

  lemma ExpandedKeepsData(regions: CallRegions, mem: Memory)
    requires mem.Valid()
    ensures regions.Expanded(mem).Valid() && regions.Expanded(mem).data == mem.data
  {
  }

  /** So is the input a CALL shows to the host, although its regions were expanded in between. */
  lemma CallInputIsLastWritten(env: Env, ms: seq<Machine>)
    requires Heads(env, ms) && Last(ms).Valid() && |Last(ms).stack| >= 7 && CallRegionsOf(Last(ms).stack).Fit()
    ensures var regions := CallRegionsOf(Last(ms).stack);
            regions.Input(Last(ms).mem) == Remembered(History(env, ms), regions.inOffset, regions.inSize)
  {
    var regions := CallRegionsOf(Last(ms).stack);
    RunMemoryIsItsHistory(env, ms);
    ExpandedKeepsData(regions, Last(ms).mem);
    SliceIsRemembered(regions.Expanded(Last(ms).mem), History(env, ms), regions.inOffset, regions.inSize);
  }
}
