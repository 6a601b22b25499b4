/**
 The byte-level interpreter refines the integer machine: abstraction commutes with every
 step and with whole runs.
 */
module Simulation {
  import opened Bytes
  import opened VmSpec
  import opened IntegerMachine
  import WordOrder

  // ---- Abstraction ----

  function AbsStack(s: seq<Word>): seq<nat> {
    seq(|s|, i requires 0 <= i < |s| => Value(s[i]))
  }

  function AbsMessage(m: CallMessage): IntMessage {
    IntMessage(m.gas, Value(m.recipient), Value(m.value), m.input)
  }

  function AbsEvent(e: Event): IntEvent {
    match e
    case TxContextRead => ReadTx
    case StorageRead(a, k) => Load(Value(a), Value(k))
    case StorageWrite(a, k, v) => Save(Value(a), Value(k), Value(v))
    case Called(m) => Call(AbsMessage(m))
    case Released(r) => Release(r)
  }

  function AbsTrace(t: seq<Event>): seq<IntEvent> {
    seq(|t|, i requires 0 <= i < |t| => AbsEvent(t[i]))
  }

  function AbsMachine(m: Machine): IntState {
    IntState(m.pc, AbsStack(m.stack), m.mem, AbsTrace(m.trace))
  }

  function AbsEffect(e: Effect): IntEffect {
    match e
    case Next(m) => Proceed(AbsMachine(m))
    case Halt(status, keepsGas, output, trace) => Stop(status, keepsGas, output, AbsTrace(trace))
    case Fault(reason, trace) => Undefined(reason, AbsTrace(trace))
  }

  function AbsOutcome(o: Outcome): IntOutcome {
    match o
    case Returned(result, trace) => Yields(result, AbsTrace(trace))
    case Faulted(reason, trace) => Aborts(reason, AbsTrace(trace))
  }

  // ---- The integer view of a byte-level host ----

  function ConcMessage(m: IntMessage): CallMessage {
    CallMessage(m.gas, Encode(20, m.recipient), Encode(32, m.value), m.input)
  }

  function ConcEvent(e: IntEvent): Event {
    match e
    case ReadTx => TxContextRead
    case Load(a, k) => StorageRead(Encode(20, a), Encode(32, k))
    case Save(a, k, v) => StorageWrite(Encode(20, a), Encode(32, k), Encode(32, v))
    case Call(m) => Called(ConcMessage(m))
    case Release(r) => Released(r)
  }

  function ConcTrace(t: seq<IntEvent>): seq<Event> {
    seq(|t|, i requires 0 <= i < |t| => ConcEvent(t[i]))
  }

  function LiftHost(h: Host): IntHost {
    IntHost(t => h.blockNumber(ConcTrace(t)),
            (t, a, k) => Value(h.storage(ConcTrace(t), Encode(20, a), Encode(32, k))),
            (t, m) => h.call(ConcTrace(t), ConcMessage(m)))
  }

  function LiftEnv(env: Env): IntEnv {
    IntEnv(env.rev, Value(env.recipient), env.input, env.code, LiftHost(env.host), env.malloc)
  }

  /** Nothing is lost by reading requests as numbers. */
  lemma ConcAbs(t: seq<Event>)
    ensures ConcTrace(AbsTrace(t)) == t
  {
    forall i | 0 <= i < |t| ensures ConcEvent(AbsEvent(t[i])) == t[i] {
      match t[i]
      case TxContextRead =>
      case StorageRead(a, k) => EncodeValue(a); EncodeValue(k);
      case StorageWrite(a, k, v) => EncodeValue(a); EncodeValue(k); EncodeValue(v);
      case Called(m) => EncodeValue(m.recipient); EncodeValue(m.value);
      case Released(r) =>
    }
  }

  // ---- Word conversions as arithmetic ----

  /** to_uint32 truncates modulo 2^32. */
  lemma {:induction false} Uint32Truncates(w: Word)
    ensures ToUint32(w) == Value(w) % UINT32
  {
    PowersOf256();
    ValueSuffix(w, 4);
    WordOrder.FourBytes(w[28..]);
  }

  lemma SplitBytes(x: nat)
    requires x < UINT32
    ensures x == 0x100_0000 * (x / 0x100_0000) + 0x1_0000 * (x / 0x1_0000 % 256) + 0x100 * (x / 0x100 % 256) + x % 256
  {
    var q1 := x / 0x100;
    var q2 := q1 / 0x100;
    assert x / 0x1_0000 == q2 && x / 0x100_0000 == q2 / 0x100;
  }

  /** to_uint256 of a 32-bit value, and to_uint32 undoes it. */
  lemma Uint256KeepsValue(x: nat)
    requires x < UINT32
    ensures Value(ToUint256(x)) == x && ToUint32(ToUint256(x)) == x
  {
    var low := ToUint256(x)[28..];
    assert ToUint256(x) == Zeros(28) + low;
    ValueLeftPad(28, low);
    WordOrder.FourBytes(low);
    SplitBytes(x);
  }

  /** to_address truncates modulo 2^160 and to_uint256 undoes it. */
  lemma {:induction false} AddressConversions(w: Word, a: Address)
    ensures Value(ToAddress(w)) == Value(w) % UINT160
    ensures Value(AddressToUint256(a)) == Value(a) && ToAddress(AddressToUint256(a)) == a
  {
    ValueSuffix(w, 20);
    ValueLeftPad(12, a);
  }

  lemma CallDataIsPaddedInput(input: seq<byte>, offset: nat)
    ensures Value(CallDataWord(input, offset)) == PaddedInput(input, offset)
  {
    assert CallDataWord(input, offset) ==
           seq(32, i requires 0 <= i => if offset + i < |input| then input[offset + i] else 0);
  }

  // ---- One step ----

  lemma ReplaceCommutes(m: Machine, n: nat, w: Word)
    requires n <= |m.stack|
    ensures AbsEffect(Replace(m, n, w)) == Arrange(AbsMachine(m), n, [Value(w)])
  {
    assert AbsStack(Drop(m.stack, n) + [w]) == AbsStack(m.stack)[..|m.stack| - n] + [Value(w)];
  }

  lemma ArgsCommute(m: Machine, n: nat)
    requires n <= |m.stack|
    ensures AbsStack(Drop(m.stack, n)) == AbsStack(m.stack)[..|m.stack| - n]
    ensures forall i | 0 <= i < n ::
      Arg(AbsMachine(m), i) == Value(Top(m.stack, i)) && Arg32(AbsMachine(m), i) == ToUint32(Top(m.stack, i))
  {
    forall i | 0 <= i < n ensures Arg32(AbsMachine(m), i) == ToUint32(Top(m.stack, i)) {
      Uint32Truncates(Top(m.stack, i));
    }
  }

  lemma TraceAppend(t: seq<Event>, more: seq<Event>)
    ensures AbsTrace(t + more) == AbsTrace(t) + AbsTrace(more)
  {
  }

  lemma AddCommutes(m: Machine)
    requires |m.stack| >= 2
    ensures AbsEffect(ExecAdd(m)) ==
            Arrange(AbsMachine(m), 2, [(Arg(AbsMachine(m), 0) + Arg(AbsMachine(m), 1)) % UINT32])
  {
    ArgsCommute(m, 2);
    var a, b := ToUint32(Top(m.stack, 0)), ToUint32(Top(m.stack, 1));
    ReplaceCommutes(m, 2, ToUint256((a + b) % UINT32));
    Uint256KeepsValue((a + b) % UINT32);
    SumModulo(Value(Top(m.stack, 0)), Value(Top(m.stack, 1)));
  }

  lemma SumModulo(a: nat, b: nat)
    ensures (a % UINT32 + b % UINT32) % UINT32 == (a + b) % UINT32
  {
  }

  lemma NumberCommutes(env: Env, m: Machine)
    ensures AbsEffect(ExecNumber(env, m)) == ReadNumber(LiftEnv(env), AbsMachine(m))
  {
    ConcAbs(m.trace);
    var m' := m.(trace := m.trace + [TxContextRead]);
    var x := env.host.blockNumber(m.trace) % UINT32;
    ReplaceCommutes(m', 0, ToUint256(x));
    Uint256KeepsValue(x);
    TraceAppend(m.trace, [TxContextRead]);
  }

  lemma SloadCommutes(env: Env, m: Machine)
    ensures AbsEffect(ExecSload(env, m)) == LoadWord(LiftEnv(env), AbsMachine(m))
  {
    if |m.stack| >= 1 {
      ConcAbs(m.trace);
      EncodeValue(env.recipient);
      ArgsCommute(m, 1);
      EncodeValue(Top(m.stack, 0));
      var event := StorageRead(env.recipient, Top(m.stack, 0));
      ReplaceCommutes(m.(trace := m.trace + [event]), 1, env.host.storage(m.trace, env.recipient, Top(m.stack, 0)));
      TraceAppend(m.trace, [event]);
    }
  }

  lemma SstoreCommutes(env: Env, m: Machine)
    requires |m.stack| <= STACK_LIMIT
    ensures AbsEffect(ExecSstore(env, m)) == SaveWord(LiftEnv(env), AbsMachine(m))
  {
    if |m.stack| >= 2 {
      ArgsCommute(m, 2);
      TraceAppend(m.trace, [StorageWrite(env.recipient, Top(m.stack, 0), Top(m.stack, 1))]);
    }
  }

  lemma MstoreCommutes(m: Machine)
    requires m.Valid()
    ensures AbsEffect(ExecMstore(m)) == StoreNumber(AbsMachine(m))
  {
    if |m.stack| >= 2 {
      ArgsCommute(m, 2);
      EncodeValue(Top(m.stack, 1));
    }
  }

  lemma EndCommutes(m: Machine, status: Status)
    requires m.Valid()
    ensures AbsEffect(ExecEnd(m, status)) == StopWithRegion(AbsMachine(m), status)
  {
    if |m.stack| >= 2 {
      ArgsCommute(m, 2);
    }
  }

  lemma CallCommutes(env: Env, m: Machine)
    requires m.Valid()
    ensures AbsEffect(ExecCall(env, m)) == CallHost(LiftEnv(env), AbsMachine(m))
  {
    if |m.stack| >= 7 {
      ArgsCommute(m, 7);
      var regions := CallRegionsOf(m.stack);
      if regions.Fit() {
        CallHostCommutes(env, m, regions);
      }
    }
  }

  /** The message of a CALL reads as numbers. */
  lemma MessageCommutes(m: Machine)
    requires m.Valid() && |m.stack| >= 7 && CallRegionsOf(m.stack).Fit()
    ensures var s := AbsMachine(m); var message := CallMessageOf(m);
            && AbsMessage(message) ==
               IntMessage(Arg32(s, 0), Arg(s, 1) % UINT160, Arg(s, 2), CallRegionsOf(m.stack).Input(s.mem))
            && ConcMessage(AbsMessage(message)) == message
  {
    ArgsCommute(m, 7);
    var recipient, value := ToAddress(Top(m.stack, 1)), Top(m.stack, 2);
    EncodeValue(recipient);
    EncodeValue(value);
    AddressConversions(Top(m.stack, 1), recipient);
  }

  lemma EventsCommute(trace: seq<Event>, message: CallMessage, result: CallResult)
    ensures AbsTrace(trace + CallEvents(message, result)) ==
            AbsTrace(trace) + ([Call(AbsMessage(message))] + if result.releasable then [Release(result)] else [])
  {
    TraceAppend(trace, CallEvents(message, result));
  }

  lemma AcceptCommutes(m: Machine, result: CallResult)
    requires |m.stack| >= 7
    ensures AbsEffect(Replace(m, 7, ToUint256(if result.success then 1 else 0))) ==
            Arrange(AbsMachine(m), 7, [if result.success then 1 else 0])
  {
    var flag := if result.success then 1 else 0;
    ReplaceCommutes(m, 7, ToUint256(flag));
    Uint256KeepsValue(flag);
  }

  lemma CallHostCommutes(env: Env, m: Machine, regions: CallRegions)
    requires m.Valid() && |m.stack| >= 7 && regions == CallRegionsOf(m.stack)
    requires regions.Fit()
    ensures AbsEffect(ExecCall(env, m)) == CallHost(LiftEnv(env), AbsMachine(m))
  {
    var s := AbsMachine(m);
    var message := CallMessageOf(m);
    ArgsCommute(m, 7);
    ConcAbs(m.trace);
    MessageCommutes(m);
    var result := env.host.call(m.trace, message);
    assert LiftHost(env.host).call(s.trace, AbsMessage(message)) == result;
    EventsCommute(m.trace, message, result);
    AcceptCommutes(m.(mem := regions.After(m.mem, result), trace := m.trace + CallEvents(message, result)), result);
  }

  lemma {:induction false} PushWordCommutes(m: Machine, immediate: seq<byte>)
    requires |immediate| <= 32
    ensures AbsEffect(Replace(m, 0, Zeros(32 - |immediate|) + immediate)) ==
            Arrange(AbsMachine(m), 0, [Value(immediate)])
  {
    ValueLeftPad(32 - |immediate|, immediate);
    ReplaceCommutes(m, 0, Zeros(32 - |immediate|) + immediate);
  }

  lemma {:induction false} PushCommutes(env: Env, m: Machine, n: nat)
    requires n <= 32
    ensures AbsEffect(ExecPush(env, m, n)) == PushImmediate(LiftEnv(env), AbsMachine(m), n)
  {
    if m.pc + 1 + n <= |env.code| {
      PushWordCommutes(m.(pc := m.pc + n), env.code[m.pc + 1..m.pc + 1 + n]);
    }
  }

  lemma SimpleCommutes(env: Env, m: Machine)
    requires m.Valid() && m.pc < |env.code|
    requires env.code[m.pc] in {OP_ADD, OP_ADDRESS, OP_CALLDATALOAD, OP_MSIZE, OP_DUP1}
    ensures AbsEffect(Exec(env, m)) == Perform(LiftEnv(env), AbsMachine(m))
  {
    var op := env.code[m.pc];
    if op == OP_ADDRESS {
      AddressConversions(ZERO_WORD, env.recipient);
      ReplaceCommutes(m, 0, AddressToUint256(env.recipient));
    } else if op == OP_MSIZE {
      Uint256KeepsValue(m.mem.size);
      ReplaceCommutes(m, 0, ToUint256(m.mem.size));
    } else if op == OP_ADD && |m.stack| >= 2 {
      AddCommutes(m);
    } else if op == OP_CALLDATALOAD && |m.stack| >= 1 {
      ArgsCommute(m, 1);
      var offset := ToUint32(Top(m.stack, 0));
      CallDataIsPaddedInput(env.input, offset);
      ReplaceCommutes(m, 1, CallDataWord(env.input, offset));
    } else if op == OP_DUP1 && |m.stack| >= 1 {
      ArgsCommute(m, 1);
      ReplaceCommutes(m, 0, Top(m.stack, 0));
    }
  }

  /** Every instruction commutes with reading words as numbers. */
  lemma StepCommutes(env: Env, m: Machine)
    requires m.Valid() && m.pc < |env.code|
    ensures AbsEffect(Exec(env, m)) == Perform(LiftEnv(env), AbsMachine(m))
  {
    var op := env.code[m.pc];
    if op == OP_NUMBER {
      NumberCommutes(env, m);
    } else if op == OP_SLOAD {
      SloadCommutes(env, m);
    } else if op == OP_SSTORE {
      SstoreCommutes(env, m);
    } else if op in {OP_ADD, OP_ADDRESS, OP_CALLDATALOAD, OP_MSIZE, OP_DUP1} {
      SimpleCommutes(env, m);
    } else if OP_PUSH1 <= op <= OP_PUSH32 {
      PushCommutes(env, m, op - OP_PUSH1 + 1);
    } else if op == OP_MSTORE {
      MstoreCommutes(m);
    } else if op == OP_CALL {
      CallCommutes(env, m);
    } else if op == OP_RETURN || op == OP_REVERT {
      EndCommutes(m, if op == OP_RETURN then Success else Revert);
    }
  }

  // ---- Whole runs ----

  /** A run of the byte-level VM is a run of the integer machine: same result, same requests. */
  lemma {:induction false} RunCommutes(env: Env, gas: int, m: Machine)
    requires m.Valid() && m.pc <= |env.code|
    ensures AbsOutcome(Run(env, gas, m)) == RunInt(LiftEnv(env), gas, AbsMachine(m))
    decreases |env.code| - m.pc
  {
    if m.pc < |env.code| && gas >= 1 {
      ExecAdvances(env, m);
      StepCommutes(env, m);
      var e := Exec(env, m);
      if e.Next? {
        RunCommutes(env, gas - 1, e.m);
      }
    }
  }

  /** Runs with different numbers as requests differ: the integer trace determines the byte trace. */
  lemma TraceIsFaithful(t: seq<Event>, u: seq<Event>)
    requires AbsTrace(t) == AbsTrace(u)
    ensures t == u
  {
    ConcAbs(t);
    ConcAbs(u);
  }
}
