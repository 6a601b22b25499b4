/**
 The example VM running on the mocked host: the host's answers come from the state its own
 earlier requests produced, so storage behaves like storage over whole executions.
 */
module VmOnHost {
  import opened Bytes
  import opened VmSpec
  import opened StackCheck
  import H = HostSpec
  import HH = HostHistory

  // ---- Requests as calls of Host methods ----

  /** The message of the example VM's CALL; all fields it does not set are zero. */
  function MessageOf(m: CallMessage): H.Message {
    H.Message(H.MessageFields(0, 0, 0, m.gas, m.recipient, Zeros(20), m.value, ZERO_WORD, Zeros(20), 0, 0), m.input)
  }

  /** The state-changing Host methods a request stands for. */
  function OpOf(e: Event): seq<H.Op> {
    match e
    case TxContextRead => []
    case StorageRead(a, k) => [H.GetStorage(a, k)]
    case StorageWrite(a, k, v) => [H.SetStorage(a, k, v)]
    case Called(m) => [H.CallContract(MessageOf(m))]
    case Released(_) => []
  }

  function OpsOf(trace: seq<Event>): seq<H.Op> {
    if trace == [] then [] else OpsOf(trace[..|trace| - 1]) + OpOf(trace[|trace| - 1])
  }

  /** The host after the requests of a trace. */
  function HostAfter(h: H.HostState, trace: seq<Event>): H.HostState {
    H.RunOps(h, OpsOf(trace))
  }

  function StoredIn(h: H.HostState, a: Address, key: Word): Word {
    H.EntryOf(h, a, key).current
  }

  /** MockedHost as the partner of the VM: configured block number and call result, storage from its state. */
  function Mocked(h: H.HostState, blockNumber: int, callResult: CallResult): Host {
    Host(_ => blockNumber,
         (t: seq<Event>, a: Address, k: Word) => StoredIn(HostAfter(h, t), a, k),
         (_, _) => callResult)
  }

  // ---- The last SSTORE ----

  /** The value the execution last stored under a key. */
  function LastStore(env: Env, ms: seq<Machine>, key: Word): Option<Word>
    requires Heads(env, ms)
  {
    var n := |ms| - 1;
    if n == 0 then None
    else
      assert Follows(env, ms[n - 1], ms[n]);
      if Stores(env, ms[n - 1], key) then Some(Top(ms[n - 1].stack, 1)) else LastStore(env, ms[..n], key)
  }

  /** The instruction at m is an SSTORE to key. */
  predicate Stores(env: Env, m: Machine, key: Word)
    requires m.pc < |env.code|
  {
    env.code[m.pc] == OP_SSTORE && |m.stack| >= 2 && Top(m.stack, 0) == key
  }

  lemma OpsOfOneMore(trace: seq<Event>, e: Event)
    ensures OpsOf(trace + [e]) == OpsOf(trace) + OpOf(e)
  {
    assert (trace + [e])[..|trace|] == trace;
  }

  /** What one request does to the value last set in a slot. */
  lemma LastSetAfter(trace: seq<Event>, e: Event, a: Address, key: Word)
    ensures HH.LastSet(OpsOf(trace + [e]), a, key) ==
            if e.StorageWrite? && e.account == a && e.key == key then Some(e.value)
            else HH.LastSet(OpsOf(trace), a, key)
  {
    OpsOfOneMore(trace, e);
    var ops := OpsOf(trace);
    if OpOf(e) == [] {
      assert ops + OpOf(e) == ops;
    } else {
      assert (ops + OpOf(e))[..|ops|] == ops;
    }
  }

  /** The operands of an instruction that makes requests are there. */
  predicate HasOperands(env: Env, m: Machine)
    requires m.Valid() && m.pc < |env.code|
  {
    var op := env.code[m.pc];
    && (op == OP_SLOAD ==> |m.stack| >= 1) && (op == OP_SSTORE ==> |m.stack| >= 2)
    && (op == OP_CALL ==> |m.stack| >= 7 && CallRegionsOf(m.stack).Fit())
  }

  /** The requests of one instruction. */
  function EventsOf(env: Env, m: Machine): seq<Event>
    requires m.Valid() && m.pc < |env.code| && HasOperands(env, m)
  {
    var op := env.code[m.pc];
    if op == OP_NUMBER then [TxContextRead]
    else if op == OP_SLOAD then [StorageRead(env.recipient, Top(m.stack, 0))]
    else if op == OP_SSTORE then [StorageWrite(env.recipient, Top(m.stack, 0), Top(m.stack, 1))]
    else if op == OP_CALL then
      var message := CallMessageOf(m);
      CallEvents(message, env.host.call(m.trace, message))
    else []
  }

  lemma CallEventsAppended(env: Env, m: Machine)
    requires m.Valid() && ExecCall(env, m).Next?
    ensures |m.stack| >= 7 && CallRegionsOf(m.stack).Fit()
    ensures ExecCall(env, m).m.trace ==
            m.trace + CallEvents(CallMessageOf(m), env.host.call(m.trace, CallMessageOf(m)))
  {
  }

  lemma EventsAppended(env: Env, m: Machine)
    requires m.Valid() && m.pc < |env.code| && Exec(env, m).Next?
    ensures HasOperands(env, m) && Exec(env, m).m.trace == m.trace + EventsOf(env, m)
  {
    if env.code[m.pc] == OP_CALL {
      CallEventsAppended(env, m);
    }
  }

  lemma CallSetsNothing(trace: seq<Event>, message: CallMessage, result: CallResult, a: Address, key: Word)
    ensures HH.LastSet(OpsOf(trace + CallEvents(message, result)), a, key) == HH.LastSet(OpsOf(trace), a, key)
  {
    LastSetAfter(trace, Called(message), a, key);
    if result.releasable {
      LastSetAfter(trace + [Called(message)], Released(result), a, key);
      assert trace + CallEvents(message, result) == trace + [Called(message)] + [Released(result)];
    } else {
      assert trace + CallEvents(message, result) == trace + [Called(message)];
    }
  }

  lemma StepSets(env: Env, m: Machine, key: Word)
    requires m.Valid() && m.pc < |env.code| && HasOperands(env, m)
    ensures HH.LastSet(OpsOf(m.trace + EventsOf(env, m)), env.recipient, key) ==
            if Stores(env, m, key) then Some(Top(m.stack, 1)) else HH.LastSet(OpsOf(m.trace), env.recipient, key)
  {
    var events := EventsOf(env, m);
    if env.code[m.pc] == OP_CALL {
      CallSetsNothing(m.trace, CallMessageOf(m), env.host.call(m.trace, CallMessageOf(m)), env.recipient, key);
    } else if env.code[m.pc] in {OP_NUMBER, OP_SLOAD, OP_SSTORE} {
      assert events == [events[0]];
      LastSetAfter(m.trace, events[0], env.recipient, key);
    } else {
      assert m.trace + events == m.trace;
    }
  }

  lemma {:induction false} TraceHasLastStore(env: Env, ms: seq<Machine>, key: Word)
    requires Heads(env, ms)
    ensures HH.LastSet(OpsOf(Last(ms).trace), env.recipient, key) == LastStore(env, ms, key)
  {
    var n := |ms| - 1;
    if n > 0 {
      assert Follows(env, ms[n - 1], ms[n]);
      TraceHasLastStore(env, ms[..n], key);
      EventsAppended(env, ms[n - 1]);
      StepSets(env, ms[n - 1], key);
    }
  }

  /** At every loop head, on any host: a slot of the account holds the last value stored, or the initial one. */
  lemma StorageIsLastStore(env: Env, ms: seq<Machine>, h: H.HostState, key: Word)
    requires Heads(env, ms)
    ensures StoredIn(HostAfter(h, Last(ms).trace), env.recipient, key) ==
            HH.GetOr(LastStore(env, ms, key), StoredIn(h, env.recipient, key))
  {
    HH.StorageAgreesWithHistory(h, OpsOf(Last(ms).trace), env.recipient, key);
    TraceHasLastStore(env, ms, key);
  }

  lemma SloadPushes(env: Env, m: Machine)
    requires m.Valid() && m.pc < |env.code| && env.code[m.pc] == OP_SLOAD && Exec(env, m).Next?
    ensures |m.stack| >= 1 && Exec(env, m).m.stack != []
    ensures Top(Exec(env, m).m.stack, 0) == env.host.storage(m.trace, env.recipient, Top(m.stack, 0))
  {
  }

  /** On the mocked host SLOAD pushes the value this execution last stored under the key, or the initial one. */
  lemma SloadReadsLastStore(env: Env, ms: seq<Machine>, m: Machine, h: H.HostState, number: int, result: CallResult)
    requires Heads(env, ms) && m == Last(ms) && env.host == Mocked(h, number, result)
    requires m.Valid() && m.pc < |env.code| && env.code[m.pc] == OP_SLOAD && Exec(env, m).Next?
    ensures |m.stack| >= 1 && Exec(env, m).m.stack != []
    ensures var key := Top(m.stack, 0);
            Top(Exec(env, m).m.stack, 0) == HH.GetOr(LastStore(env, ms, key), StoredIn(h, env.recipient, key))
  {
    SloadPushes(env, m);
    StorageIsLastStore(env, ms, h, Top(m.stack, 0));
  }

  // ---- Whole runs ----

  /** All storage requests are for one account. */
  ghost predicate OnlyWrites(trace: seq<Event>, a: Address) {
    forall e | e in trace && e.StorageWrite? :: e.account == a
  }

  function TraceOf(e: Effect): seq<Event> {
    match e
    case Next(m) => m.trace
    case Halt(_, _, _, trace) => trace
    case Fault(_, trace) => trace
  }

  lemma CallWritesNothing(env: Env, m: Machine)
    requires m.Valid() && OnlyWrites(m.trace, env.recipient)
    ensures OnlyWrites(TraceOf(ExecCall(env, m)), env.recipient)
  {
  }

  lemma ExecWritesOwn(env: Env, m: Machine)
    requires m.Valid() && m.pc < |env.code| && OnlyWrites(m.trace, env.recipient)
    ensures OnlyWrites(TraceOf(Exec(env, m)), env.recipient)
  {
    if env.code[m.pc] == OP_CALL {
      CallWritesNothing(env, m);
    }
  }

  lemma {:induction false} RunWritesOwn(env: Env, gas: int, m: Machine)
    requires m.Valid() && m.pc <= |env.code| && OnlyWrites(m.trace, env.recipient)
    ensures OnlyWrites(Run(env, gas, m).trace, env.recipient)
    decreases |env.code| - m.pc
  {
    if m.pc < |env.code| && gas >= 1 {
      ExecAdvances(env, m);
      ExecWritesOwn(env, m);
      var e := Exec(env, m);
      if e.Next? {
        RunWritesOwn(env, gas - 1, e.m);
      }
    }
  }

  lemma {:induction false} OthersAreNotSet(trace: seq<Event>, a: Address, other: Address, key: Word)
    requires OnlyWrites(trace, a) && other != a
    ensures HH.LastSet(OpsOf(trace), other, key) == None
  {
    if trace != [] {
      var front, last := trace[..|trace| - 1], trace[|trace| - 1];
      assert trace == front + [last];
      OthersAreNotSet(front, a, other, key);
      LastSetAfter(front, last, other, key);
    }
  }

  /** A whole run, on any host and with any gas, leaves the storage of every other account as it was. */
  lemma RunKeepsOtherStorage(env: Env, gas: int, h: H.HostState, other: Address, key: Word)
    requires other != env.recipient
    ensures StoredIn(HostAfter(h, Run(env, gas, INITIAL).trace), other, key) == StoredIn(h, other, key)
  {
    var trace := Run(env, gas, INITIAL).trace;
    RunWritesOwn(env, gas, INITIAL);
    OthersAreNotSet(trace, env.recipient, other, key);
    HH.StorageAgreesWithHistory(h, OpsOf(trace), other, key);
  }
}
