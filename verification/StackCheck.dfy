/**
 A linear scan of the code with the stack columns of lib/instructions/instruction_metrics.c,
 and the proof that it is an exact stack check for the example VM.
 */
module StackCheck {
  import opened Bytes
  import opened VmSpec

  // ---- The tables ----

  datatype Table = Osaka | Prague | Cancun | Shanghai | London | Berlin | Istanbul
                 | Constantinople | ByzantiumTable | TangerineWhistle | Homestead | Frontier

  /** evmc_get_instruction_metrics_table. */
  function TableOf(rev: Revision): Table {
    match rev
    case 15 => Osaka
    case 14 => Osaka
    case 13 => Prague
    case 12 => Cancun
    case 11 => Shanghai
    case 10 => London
    case 9 => London
    case 8 => Berlin
    case 7 => Istanbul
    case 6 => Constantinople
    case 5 => Constantinople
    case 4 => ByzantiumTable
    case 3 => TangerineWhistle
    case 2 => TangerineWhistle
    case 1 => Homestead
    case _ => Frontier
  }

  /** stack_height_required and stack_height_change. */
  datatype Metrics = Metrics(required: nat, change: int)

  /** The stack columns of the opcodes the example VM implements. */
  function MetricsOf(t: Table, op: byte): Metrics {
    if op == OP_STOP then Metrics(0, 0)
    else if op == OP_ADD then Metrics(2, -1)
    else if op == OP_ADDRESS then Metrics(0, 1)
    else if op == OP_CALLDATALOAD then Metrics(1, 0)
    else if op == OP_NUMBER then Metrics(0, 1)
    else if op == OP_MSTORE then Metrics(2, -2)
    else if op == OP_SLOAD then Metrics(1, 0)
    else if op == OP_SSTORE then Metrics(2, -2)
    else if op == OP_MSIZE then Metrics(0, 1)
    else if OP_PUSH1 <= op <= OP_PUSH32 then Metrics(0, 1)
    else if op == OP_DUP1 then Metrics(1, 1)
    else if op == OP_CALL then Metrics(7, -6)
    else if op == OP_RETURN then Metrics(2, -2)
    else if op == OP_REVERT && t !in {TangerineWhistle, Homestead, Frontier} then Metrics(2, -2)
    else Metrics(0, 0)
  }

  predicate Implemented(rev: Revision, op: byte) {
    || op in {OP_STOP, OP_ADD, OP_ADDRESS, OP_CALLDATALOAD, OP_NUMBER, OP_MSTORE, OP_SLOAD, OP_SSTORE, OP_MSIZE}
    || OP_PUSH1 <= op <= OP_PUSH32
    || op in {OP_DUP1, OP_CALL, OP_RETURN}
    || (op == OP_REVERT && rev >= BYZANTIUM)
  }

  predicate Ending(op: byte) {
    op in {OP_STOP, OP_RETURN, OP_REVERT}
  }

  function ImmediateSize(op: byte): nat {
    if OP_PUSH1 <= op <= OP_PUSH32 then op - OP_PUSH1 + 1 else 0
  }

  // ---- The scan ----

  /** The instruction at pc can run with this stack height. */
  predicate Fits(rev: Revision, code: seq<byte>, pc: nat, height: int)
    requires pc < |code|
  {
    var m := MetricsOf(TableOf(rev), code[pc]);
    m.required <= height && height + m.change <= STACK_LIMIT && pc + 1 + ImmediateSize(code[pc]) <= |code|
  }

  predicate Scan(rev: Revision, code: seq<byte>, pc: nat, height: int)
    decreases |code| - pc
  {
    || pc >= |code|
    || !Implemented(rev, code[pc])
    || (Fits(rev, code, pc, height)
        && (Ending(code[pc])
            || Scan(rev, code, pc + 1 + ImmediateSize(code[pc]), height + MetricsOf(TableOf(rev), code[pc]).change)))
  }

  // ---- One instruction ----

  /** For every revision the tables describe each implemented instruction exactly. */
  lemma MetricsAreExact(env: Env, m: Machine)
    requires m.Valid() && m.pc < |env.code| && Implemented(env.rev, env.code[m.pc])
    ensures var op := env.code[m.pc]; var e := Exec(env, m);
            && (e.Fault? && e.reason != RegionWrap <==> !Fits(env.rev, env.code, m.pc, |m.stack|))
            && (Ending(op) ==> !e.Next?)
            && (e.Next? ==> |e.m.stack| == |m.stack| + MetricsOf(TableOf(env.rev), op).change
                            && e.m.pc == m.pc + 1 + ImmediateSize(op))
  {
    if env.code[m.pc] == OP_CALL {
      CallMetrics(env, m);
    }
  }

  lemma CallMetrics(env: Env, m: Machine)
    requires m.Valid() && m.pc < |env.code|
    ensures var e := ExecCall(env, m);
            && (e.Fault? && e.reason != RegionWrap <==> |m.stack| < 7)
            && (e.Next? ==> |e.m.stack| == |m.stack| - 6 && e.m.pc == m.pc + 1)
  {
  }

  // ---- Whole runs ----

  /** Execution goes from the loop head at m to the loop head at m'. */
  predicate Follows(env: Env, m: Machine, m': Machine) {
    m.Valid() && m.pc < |env.code| && Exec(env, m) == Next(m')
  }

  /** The states at successive arrivals at the loop head, with gas to spare. */
  predicate Heads(env: Env, ms: seq<Machine>) {
    ms != [] && ms[0] == INITIAL && forall i | 0 < i < |ms| :: Follows(env, ms[i - 1], ms[i])
  }

  function Last(ms: seq<Machine>): Machine
    requires ms != []
  {
    ms[|ms| - 1]
  }

  lemma RunOneStep(env: Env, gas: int, m: Machine, m': Machine)
    requires Follows(env, m, m') && gas >= 1
    ensures m'.Valid() && m'.pc <= |env.code| && Run(env, gas, m) == Run(env, gas - 1, m')
  {
    ExecAdvances(env, m);
  }

  /** These are the loop heads of the interpreter. */
  lemma {:induction false} HeadsAreReached(env: Env, gas: nat, ms: seq<Machine>)
    requires Heads(env, ms) && |ms| - 1 <= gas
    ensures Last(ms).Valid() && Last(ms).pc <= |env.code|
    ensures Run(env, gas, INITIAL) == Run(env, gas - (|ms| - 1), Last(ms))
  {
    var n := |ms| - 1;
    if n > 0 {
      HeadsAreReached(env, gas, ms[..n]);
      RunOneStep(env, gas - (n - 1), ms[n - 1], ms[n]);
    }
  }

  /** Where the n-th instruction of a straight-line reading of the code starts. */
  function PcAt(code: seq<byte>, n: nat): nat {
    if n == 0 then 0
    else
      var pc := PcAt(code, n - 1);
      if pc < |code| then pc + 1 + ImmediateSize(code[pc]) else pc
  }

  /** The sum of stack_height_change over the first n instructions. */
  function HeightAt(rev: Revision, code: seq<byte>, n: nat): int {
    if n == 0 then 0
    else
      var pc := PcAt(code, n - 1);
      HeightAt(rev, code, n - 1) + if pc < |code| then MetricsOf(TableOf(rev), code[pc]).change else 0
  }

  lemma StepIsStatic(env: Env, m: Machine, m': Machine)
    requires Follows(env, m, m')
    ensures m'.pc == m.pc + 1 + ImmediateSize(env.code[m.pc])
    ensures |m'.stack| == |m.stack| + MetricsOf(TableOf(env.rev), env.code[m.pc]).change
  {
    NextIsImplemented(env, m);
    MetricsAreExact(env, m);
  }

  lemma NextIsImplemented(env: Env, m: Machine)
    requires m.Valid() && m.pc < |env.code| && Exec(env, m).Next?
    ensures Implemented(env.rev, env.code[m.pc])
  {
  }

  /** Position and height at every loop head are known without running the code. */
  lemma {:induction false} HeightIsStatic(env: Env, ms: seq<Machine>)
    requires Heads(env, ms)
    ensures Last(ms).pc == PcAt(env.code, |ms| - 1)
    ensures |Last(ms).stack| == HeightAt(env.rev, env.code, |ms| - 1)
  {
    var n := |ms| - 1;
    if n > 0 {
      HeightIsStatic(env, ms[..n]);
      StepIsStatic(env, ms[n - 1], ms[n]);
    }
  }

  /** At a reached instruction the static condition decides whether the VM leaves its stack or code. */
  lemma StaticCheckIsExact(env: Env, ms: seq<Machine>)
    requires Heads(env, ms)
    ensures var n, m := |ms| - 1, Last(ms);
            m.Valid() && m.pc == PcAt(env.code, n)
            && (m.pc < |env.code| && Implemented(env.rev, env.code[m.pc]) ==>
                  (Exec(env, m).Fault? && Exec(env, m).reason != RegionWrap
                   <==> !Fits(env.rev, env.code, PcAt(env.code, n), HeightAt(env.rev, env.code, n))))
  {
    HeadsAreReached(env, |ms|, ms);
    HeightIsStatic(env, ms);
    var m := Last(ms);
    if m.pc < |env.code| && Implemented(env.rev, env.code[m.pc]) {
      MetricsAreExact(env, m);
    }
  }

  lemma {:induction false} ScanSafeFrom(env: Env, gas: int, m: Machine)
    requires m.Valid() && m.pc <= |env.code|
    requires Scan(env.rev, env.code, m.pc, |m.stack|)
    ensures Run(env, gas, m).Faulted? ==> Run(env, gas, m).reason == RegionWrap
    decreases |env.code| - m.pc
  {
    if m.pc < |env.code| && gas >= 1 && Implemented(env.rev, env.code[m.pc]) {
      ExecAdvances(env, m);
      MetricsAreExact(env, m);
      var e := Exec(env, m);
      if e.Next? {
        ScanSafeFrom(env, gas - 1, e.m);
      }
    }
  }

  /** Code that passes the scan never leaves the stack or the code, whatever the gas, input and host. */
  lemma StaticStackSafety(env: Env, gas: int)
    requires Scan(env.rev, env.code, 0, 0)
    ensures Run(env, gas, INITIAL).Faulted? ==> Run(env, gas, INITIAL).reason == RegionWrap
  {
    ScanSafeFrom(env, gas, INITIAL);
  }

  lemma NormalHalt(env: Env, m: Machine)
    requires m.Valid() && m.pc < |env.code| && Implemented(env.rev, env.code[m.pc]) && Exec(env, m).Halt?
    ensures Exec(env, m).status == Failure ==> Exec(env, m).output == []
    ensures Exec(env, m).status != Failure ==> Ending(env.code[m.pc])
  {
  }

  /** A rejected position faults, fails, or leads to another one. */
  lemma RejectedStep(env: Env, m: Machine)
    requires m.Valid() && m.pc <= |env.code| && !Scan(env.rev, env.code, m.pc, |m.stack|)
    ensures m.pc < |env.code|
    ensures match Exec(env, m)
            case Next(m') => !Scan(env.rev, env.code, m'.pc, |m'.stack|)
            case Halt(status, _, output, _) => status == Failure && output == []
            case Fault(_, _) => true
  {
    MetricsAreExact(env, m);
    if Exec(env, m).Halt? {
      NormalHalt(env, m);
    }
  }

  lemma {:induction false} ScanRejectsFrom(env: Env, gas: int, m: Machine)
    requires m.Valid() && m.pc <= |env.code| && gas >= |env.code| - m.pc
    requires !Scan(env.rev, env.code, m.pc, |m.stack|)
    ensures var r := Run(env, gas, m); r.Faulted? || r.result.status == Failure
    decreases |env.code| - m.pc
  {
    RejectedStep(env, m);
    ExecAdvances(env, m);
    if Exec(env, m).Next? {
      ScanRejectsFrom(env, gas - 1, Exec(env, m).m);
    }
  }

  /**
   Code the scan rejects has no successful run: with gas for all of it, execution leaves the
   C++ arrays or stops early because memory cannot be expanded.
   */
  lemma RejectedCodeNeverSucceeds(env: Env, gas: nat)
    requires !Scan(env.rev, env.code, 0, 0) && gas >= |env.code|
    ensures var r := Run(env, gas, INITIAL); r.Faulted? || r.result.status == Failure
  {
    ScanRejectsFrom(env, gas, INITIAL);
  }
}
