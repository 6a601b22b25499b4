/**
 What gas does to a run of the example VM.  `FreeRun` is the interpreter without a gas
 counter; it also counts the instructions it fetches.  A run with gas is that run when the
 gas covers the count, and a cut-short version of it otherwise.
 */
module GasLaws {
  import opened Bytes
  import opened VmSpec

  datatype Free =
    | Ends(status: Status, keepsGas: bool, output: seq<byte>, trace: seq<Event>, fetched: nat)
    | Breaks(reason: Reason, trace: seq<Event>, fetched: nat)

  function OneMore(f: Free): Free {
    match f
    case Ends(status, keepsGas, output, trace, n) => Ends(status, keepsGas, output, trace, n + 1)
    case Breaks(reason, trace, n) => Breaks(reason, trace, n + 1)
  }

  function FreeRun(env: Env, m: Machine): Free
    requires m.Valid() && m.pc <= |env.code|
    decreases |env.code| - m.pc
  {
    if m.pc == |env.code| then Ends(Success, true, [], m.trace, 0)
    else
      ExecAdvances(env, m);
      match Exec(env, m)
      case Next(m') => OneMore(FreeRun(env, m'))
      case Halt(status, keepsGas, output, trace) => Ends(status, keepsGas, output, trace, 1)
      case Fault(reason, trace) => Breaks(reason, trace, 1)
  }

  /** The outcome of a gas-free run for a caller who supplied `gas`. */
  function Charged(env: Env, gas: int, f: Free): Outcome {
    match f
    case Ends(status, keepsGas, output, trace, n) =>
      Returned(MakeResult(env.malloc, status, if keepsGas then gas - n else 0, 0, output), trace)
    case Breaks(reason, trace, _) => Faulted(reason, trace)
  }

  const OUT_OF_GAS := Result(OutOfGas, 0, 0, None)

  /** Enough gas means gas >= number of fetched instructions, and nothing else depends on it. */
  lemma {:induction false} GasExact(env: Env, gas: nat, m: Machine)
    requires m.Valid() && m.pc <= |env.code|
    ensures var f := FreeRun(env, m); var r := Run(env, gas, m);
            if f.fetched <= gas then r == Charged(env, gas, f)
            else r.Returned? && r.result == OUT_OF_GAS && m.trace <= r.trace <= f.trace
    ensures m.trace <= FreeRun(env, m).trace
    decreases |env.code| - m.pc
  {
    if m.pc < |env.code| {
      ExecAdvances(env, m);
      var e := Exec(env, m);
      if e.Next? {
        GasExact(env, if gas == 0 then 0 else gas - 1, e.m);
      }
    }
  }

  /** No instruction reports OutOfGas by itself. */
  lemma {:induction false} FreeRunNeverOutOfGas(env: Env, m: Machine)
    requires m.Valid() && m.pc <= |env.code|
    ensures FreeRun(env, m).Ends? ==>
      var f := FreeRun(env, m);
      f.status !in {OutOfGas, OutOfMemory} && (f.keepsGas <==> f.status in {Success, Revert})
      && (!f.keepsGas ==> f.output == [])
    decreases |env.code| - m.pc
  {
    if m.pc < |env.code| {
      ExecAdvances(env, m);
      var e := Exec(env, m);
      if e.Next? {
        FreeRunNeverOutOfGas(env, e.m);
      }
    }
  }

  /** A run ends OutOfGas exactly when it has less gas than the instructions it would fetch. */
  lemma OutOfGasIff(env: Env, gas: nat, m: Machine)
    requires m.Valid() && m.pc <= |env.code|
    ensures var r := Run(env, gas, m);
            r.Returned? && r.result.status == OutOfGas <==> gas < FreeRun(env, m).fetched
  {
    GasExact(env, gas, m);
    FreeRunNeverOutOfGas(env, m);
  }

  /** The same result with `extra` more gas. */
  function WithMoreGas(r: Result, extra: nat): Result {
    if r.status in {Success, Revert} then r.(gasLeft := r.gasLeft + extra) else r
  }

  /** A run only appends to the trace. */
  lemma {:induction false} TraceIsKept(env: Env, gas: nat, m: Machine)
    requires m.Valid() && m.pc <= |env.code|
    ensures m.trace <= Run(env, gas, m).trace
    decreases |env.code| - m.pc
  {
    if gas > 0 && m.pc < |env.code| {
      ExecAdvances(env, m);
      var e := Exec(env, m);
      if e.Next? {
        TraceIsKept(env, gas - 1, e.m);
      }
    }
  }

  lemma {:induction false} TraceGrows(env: Env, gas: nat, extra: nat, m: Machine)
    requires m.Valid() && m.pc <= |env.code|
    ensures Run(env, gas, m).trace <= Run(env, gas + extra, m).trace
    decreases |env.code| - m.pc
  {
    if gas == 0 {
      TraceIsKept(env, extra, m);
    } else if m.pc < |env.code| {
      ExecAdvances(env, m);
      var e := Exec(env, m);
      if e.Next? {
        TraceGrows(env, gas - 1, extra, e.m);
      }
    }
  }

  /** More gas never changes a run that did not run out, and extends the trace of one that did. */
  lemma GasOnlyCutsShort(env: Env, gas: nat, extra: nat)
    ensures var r, r' := Run(env, gas, INITIAL), Run(env, gas + extra, INITIAL);
            && r.trace <= r'.trace
            && (r.Returned? && r.result.status != OutOfGas ==>
                  r' == Returned(WithMoreGas(r.result, extra), r.trace))
            && (r.Faulted? ==> r' == r)
  {
    GasExact(env, gas, INITIAL);
    GasExact(env, gas + extra, INITIAL);
    FreeRunNeverOutOfGas(env, INITIAL);
    TraceGrows(env, gas, extra, INITIAL);
  }

  /** The contract of evmc_result, for every execution that returns. */
  lemma ResultContract(env: Env, gas: nat)
    requires Run(env, gas, INITIAL).Returned?
    ensures var r, f := Run(env, gas, INITIAL).result, FreeRun(env, INITIAL);
            && (r.status in {Success, Revert} ==>
                 (f.Ends? && r.gasLeft == gas - f.fetched >= 0
                  && r.output == if f.output == [] then None else Some(f.output)))
            && (r.status !in {Success, Revert} ==> r.gasLeft == 0 && r.output == None)
            && r.gasRefund == 0
            && (r.output.Some? ==> r.output.value != [])
            && (r.status == OutOfMemory <==>
                  f.fetched <= gas && f.Ends? && f.output != [] && !env.malloc(|f.output|))
  {
    GasExact(env, gas, INITIAL);
    FreeRunNeverOutOfGas(env, INITIAL);
  }

  /** Every instruction costs 1 and moves pc forward, so a run fetches at most |code| of them. */
  lemma {:induction false} FetchBound(env: Env, m: Machine)
    requires m.Valid() && m.pc <= |env.code|
    ensures FreeRun(env, m).fetched <= |env.code| - m.pc
    decreases |env.code| - m.pc
  {
    if m.pc < |env.code| {
      ExecAdvances(env, m);
      var e := Exec(env, m);
      if e.Next? {
        FetchBound(env, e.m);
      }
    }
  }
}
