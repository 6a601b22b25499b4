/**
 The instruction set of the example VM in numbers: which byte is which instruction, which stack
 heights and which memory regions it accepts, and what happens to the others.
 */
module InstructionLaws {
  import opened Bytes
  import opened VmSpec
  import opened StackCheck

  // ---- Opcodes ----

  predicate IsInstruction(op: byte) {
    op in {0x00, 0x01, 0x30, 0x35, 0x43, 0x52, 0x54, 0x55, 0x59, 0x80, 0xf1, 0xf3, 0xfd} || 0x60 <= op <= 0x7f
  }

  /** Every byte and what it does. */
  lemma InstructionTable(env: Env, m: Machine)
    requires m.Valid() && m.pc < |env.code|
    ensures var op, e := env.code[m.pc], Exec(env, m);
            && (op == 0x00 ==> e == Halt(Success, true, [], m.trace))
            && (op == 0x01 ==> e == ExecAdd(m))
            && (op == 0x30 ==> e == Replace(m, 0, AddressToUint256(env.recipient)))
            && (op == 0x35 ==> e == ExecCallDataLoad(env, m))
            && (op == 0x43 ==> e == ExecNumber(env, m))
            && (op == 0x52 ==> e == ExecMstore(m))
            && (op == 0x54 ==> e == ExecSload(env, m))
            && (op == 0x55 ==> e == ExecSstore(env, m))
            && (op == 0x59 ==> e == Replace(m, 0, ToUint256(m.mem.size)))
            && (0x60 <= op <= 0x7f ==> e == ExecPush(env, m, op - 0x5f))
            && (op == 0x80 ==> e == ExecDup(m))
            && (op == 0xf1 ==> e == ExecCall(env, m))
            && (op == 0xf3 ==> e == ExecEnd(m, Success))
            && (op == 0xfd && env.rev >= 4 ==> e == ExecEnd(m, Revert))
            && (op == 0xfd && env.rev < 4 ==> e == Halt(UndefinedInstruction, false, [], m.trace))
            && (!IsInstruction(op) ==> e == Halt(UndefinedInstruction, false, [], m.trace))
  {
  }

  /** The operands a byte takes off the stack. */
  function Operands(rev: Revision, op: byte): nat {
    if op == 0xf1 then 7
    else if op in {0x01, 0x52, 0x55, 0xf3} || (op == 0xfd && rev >= 4) then 2
    else if op in {0x35, 0x54, 0x80} then 1
    else 0
  }

  /** The byte leaves one word more than it found. */
  predicate Grows(op: byte) {
    op in {0x30, 0x43, 0x59, 0x80} || 0x60 <= op <= 0x7f
  }

  /** The immediate of a PUSH is not all there. */
  predicate Overruns(env: Env, m: Machine) {
    m.pc < |env.code| && 0x60 <= env.code[m.pc] <= 0x7f && m.pc + 1 + (env.code[m.pc] - 0x5f) > |env.code|
  }

  /** Operands are missing, or all 1024 slots are taken. */
  predicate LeavesStack(env: Env, m: Machine) {
    && m.pc < |env.code| && !Overruns(env, m)
    && (|m.stack| < Operands(env.rev, env.code[m.pc]) || (Grows(env.code[m.pc]) && |m.stack| == 1024))
  }

  lemma CallStackFault(env: Env, m: Machine)
    requires m.Valid()
    ensures ExecCall(env, m).Fault? && ExecCall(env, m).reason == StackFault <==> |m.stack| < 7
    ensures ExecCall(env, m).Fault? ==> ExecCall(env, m).reason != CodeOverrun
  {
  }

  lemma StackFaultIff(env: Env, m: Machine)
    requires m.Valid() && m.pc < |env.code|
    ensures Exec(env, m).Fault? && Exec(env, m).reason == StackFault <==> LeavesStack(env, m)
    ensures Exec(env, m).Fault? && Exec(env, m).reason == CodeOverrun <==> Overruns(env, m)
  {
    if env.code[m.pc] == 0xf1 {
      CallStackFault(env, m);
    }
  }

  // ---- Memory regions ----

  /** The sum as 32-bit arithmetic has it is above the 1024 bytes of memory: a null pointer. */
  predicate IsNull(offset: nat, n: nat) {
    (offset + n) % 0x1_0000_0000 > 1024
  }

  /** The sum wraps around to an offset inside memory. */
  predicate IsWrapped(offset: nat, n: nat) {
    offset + n >= 0x1_0000_0000 && (offset + n) % 0x1_0000_0000 <= 1024
  }

  /** MSTORE continues exactly when its 32 bytes lie inside the 1024 bytes of memory. */
  lemma MstoreOutcome(m: Machine)
    requires m.Valid() && |m.stack| >= 2
    ensures var index, e := ToUint32(Top(m.stack, 0)), ExecMstore(m);
            && (e.Next? <==> index + 32 <= 1024)
            && (e == Halt(Failure, false, [], m.trace) <==> IsNull(index, 32))
            && (e == Fault(RegionWrap, m.trace) <==> IsWrapped(index, 32))
            && (e.Next? || e.Halt? || e == Fault(RegionWrap, m.trace))
  {
  }

  /** RETURN and REVERT give their status exactly when the region lies inside memory. */
  lemma EndOutcome(m: Machine, status: Status)
    requires m.Valid() && |m.stack| >= 2 && status != Failure
    ensures var offset, size, e := ToUint32(Top(m.stack, 0)), ToUint32(Top(m.stack, 1)), ExecEnd(m, status);
            && (e.Halt? && e.keepsGas <==> offset + size <= 1024)
            && (e.Halt? && e.keepsGas ==> e.status == status && |e.output| == size)
            && (e == Halt(Failure, false, [], m.trace) <==> IsNull(offset, size))
            && (e == Fault(RegionWrap, m.trace) <==> IsWrapped(offset, size))
  {
  }

  /** CALL continues exactly when both regions lie inside memory, and a null pointer comes before a wrapped one. */
  lemma CallOutcome(env: Env, m: Machine)
    requires m.Valid() && |m.stack| >= 7
    ensures var inOffset, inSize := ToUint32(Top(m.stack, 3)), ToUint32(Top(m.stack, 4));
            var outOffset, outSize := ToUint32(Top(m.stack, 5)), ToUint32(Top(m.stack, 6));
            var isNull, e := IsNull(inOffset, inSize) || IsNull(outOffset, outSize), ExecCall(env, m);
            && (e.Next? <==> inOffset + inSize <= 1024 && outOffset + outSize <= 1024)
            && (e == Halt(Failure, false, [], m.trace) <==> isNull)
            && (e == Fault(RegionWrap, m.trace)
                <==> !isNull && (IsWrapped(inOffset, inSize) || IsWrapped(outOffset, outSize)))
            && (e.Next? || e.Halt? || e == Fault(RegionWrap, m.trace))
  {
  }

  /** The instruction at m has its operands, and one of its regions wraps while none is null. */
  predicate Wraps(env: Env, m: Machine) {
    m.pc < |env.code| &&
    var op, s := env.code[m.pc], m.stack;
    || (op == 0x52 && |s| >= 2 && IsWrapped(ToUint32(Top(s, 0)), 32))
    || ((op == 0xf3 || (op == 0xfd && env.rev >= 4)) && |s| >= 2 && IsWrapped(ToUint32(Top(s, 0)), ToUint32(Top(s, 1))))
    || (op == 0xf1 && |s| >= 7 && CallWraps(s))
  }

  predicate CallWraps(s: seq<Word>)
    requires |s| >= 7
  {
    var inOffset, inSize := ToUint32(Top(s, 3)), ToUint32(Top(s, 4));
    var outOffset, outSize := ToUint32(Top(s, 5)), ToUint32(Top(s, 6));
    && !IsNull(inOffset, inSize) && !IsNull(outOffset, outSize)
    && (IsWrapped(inOffset, inSize) || IsWrapped(outOffset, outSize))
  }

  lemma OtherNeverWrap(env: Env, m: Machine)
    requires m.Valid() && m.pc < |env.code|
    requires env.code[m.pc] !in {0x52, 0xf1, 0xf3, 0xfd}
    ensures !(Exec(env, m).Fault? && Exec(env, m).reason == RegionWrap)
  {
  }

  lemma StepWrapsIff(env: Env, m: Machine)
    requires m.Valid() && m.pc < |env.code|
    ensures Exec(env, m).Fault? && Exec(env, m).reason == RegionWrap <==> Wraps(env, m)
  {
    InstructionTable(env, m);
    if env.code[m.pc] == 0x52 && |m.stack| >= 2 {
      MstoreOutcome(m);
    } else if env.code[m.pc] == 0xf1 && |m.stack| >= 7 {
      CallOutcome(env, m);
    } else if env.code[m.pc] in {0xf3, 0xfd} && |m.stack| >= 2 {
      EndOutcome(m, Success);
      EndOutcome(m, Revert);
    } else if env.code[m.pc] !in {0x52, 0xf1, 0xf3, 0xfd} {
      OtherNeverWrap(env, m);
    }
  }

  // ---- Whole runs ----

  /** The instruction at m leaves the C++ arrays in the given way. */
  predicate Leaves(env: Env, m: Machine, reason: Reason) {
    match reason
    case StackFault => LeavesStack(env, m)
    case CodeOverrun => Overruns(env, m)
    case RegionWrap => Wraps(env, m)
  }

  lemma StepFaultsIff(env: Env, m: Machine, reason: Reason)
    requires m.Valid() && m.pc < |env.code|
    ensures Exec(env, m).Fault? && Exec(env, m).reason == reason <==> Leaves(env, m, reason)
  {
    StackFaultIff(env, m);
    StepWrapsIff(env, m);
  }

  predicate FaultsWith(o: Outcome, reason: Reason) {
    o.Faulted? && o.reason == reason
  }

  /** A run reaches the loop head `Last(ms)` with gas for the next instruction, and that one leaves the arrays. */
  ghost predicate ReachesFault(env: Env, gas: nat, ms: seq<Machine>, reason: Reason) {
    Heads(env, ms) && |ms| <= gas && Leaves(env, Last(ms), reason)
  }

  lemma {:induction false} FaultIsReached(env: Env, gas: nat, ms: seq<Machine>, reason: Reason)
    requires Heads(env, ms) && |ms| - 1 <= gas && Last(ms).Valid() && Last(ms).pc <= |env.code|
    requires FaultsWith(Run(env, gas - (|ms| - 1), Last(ms)), reason)
    ensures exists ns :: ReachesFault(env, gas, ns, reason)
    decreases |env.code| - Last(ms).pc
  {
    var m := Last(ms);
    StepFaultsIff(env, m, reason);
    ExecAdvances(env, m);
    var e := Exec(env, m);
    if e.Next? {
      var ns := ms + [e.m];
      assert Follows(env, ns[|ms| - 1], ns[|ms|]);
      FaultIsReached(env, gas, ns, reason);
    } else {
      assert ReachesFault(env, gas, ms, reason);
    }
  }

  lemma LeavingFaults(env: Env, gas: int, m: Machine, reason: Reason)
    requires m.Valid() && m.pc < |env.code| && gas >= 1 && Leaves(env, m, reason)
    ensures FaultsWith(Run(env, gas, m), reason)
  {
    StepFaultsIff(env, m, reason);
  }

  /** A run faults exactly when it reaches an instruction that leaves the arrays, and in that way. */
  lemma RunFaultsIff(env: Env, gas: nat, reason: Reason)
    ensures FaultsWith(Run(env, gas, INITIAL), reason) <==> exists ms :: ReachesFault(env, gas, ms, reason)
  {
    if FaultsWith(Run(env, gas, INITIAL), reason) {
      FaultIsReached(env, gas, [INITIAL], reason);
    }
    if ms :| ReachesFault(env, gas, ms, reason) {
      HeadsAreReached(env, gas, ms);
      LeavingFaults(env, gas - (|ms| - 1), Last(ms), reason);
    }
  }

  // ---- The last word of memory ----

  /** PUSH1 0, PUSH2 992, MSTORE. */
  const LAST_WORD: seq<byte> := [0x60, 0x00, 0x61, 0x03, 0xe0, 0x52]

  lemma PushSteps(env: Env, m: Machine, n: nat)
    requires 0 < n <= 32 && m.Valid() && m.pc + 1 + n <= |env.code| && env.code[m.pc] == 0x5f + n && |m.stack| < 1024
    ensures Exec(env, m) ==
            Next(m.(pc := m.pc + 1 + n, stack := m.stack + [Zeros(32 - n) + env.code[m.pc + 1..m.pc + 1 + n]]))
  {
  }

  /** Storing at 992 is inside memory: with gas 10 the run succeeds and 7 are left. */
  lemma LastWordIsStored(env: Env)
    requires env.code == LAST_WORD
    ensures Run(env, 10, INITIAL) == Returned(Result(Success, 7, 0, None), [])
  {
    var m1 := Machine(2, [Zeros(31) + [0x00]], EMPTY_MEMORY, []);
    var m2 := Machine(5, m1.stack + [Zeros(30) + [0x03, 0xe0]], EMPTY_MEMORY, []);
    PushSteps(env, INITIAL, 1);
    assert env.code[1..2] == [0x00] && env.code[3..5] == [0x03, 0xe0];
    assert INITIAL.stack + [Zeros(31) + [0x00]] == m1.stack;
    PushSteps(env, m1, 2);
    assert ToUint32(Top(m2.stack, 0)) == 992;
    MstoreOutcome(m2);
    InstructionTable(env, m2);
    var m3 := Exec(env, m2).m;
    RunOneStep(env, 10, INITIAL, m1);
    RunOneStep(env, 9, m1, m2);
    RunOneStep(env, 8, m2, m3);
  }
}
