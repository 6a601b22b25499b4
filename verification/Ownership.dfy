/**
 Ownership of evmc_result and evmc_vm by the C++ wrappers `Result` and `VM` of
 include/evmc/evmc.hpp: a conservation law for releases over any sequence of constructions,
 moves, hand-overs and destructions.
 */
module Ownership {
  import opened Bytes
  import VmSpec

  /** A raw evmc_result seen as a resource: its identity and whether `release` is set. */
  datatype Raw = Raw(id: nat, owns: bool)

  function Disowned(r: Raw): Raw {
    r.(owns := false)
  }

  /** What calling the release function, if set, releases. */
  function ReleasedBy(r: Raw): multiset<nat> {
    if r.owns then multiset{r.id} else multiset{}
  }

  // ---- The wrappers ----

  /** The release and destroy calls made so far. */
  class Ledger {
    var released: multiset<nat>
    var nextId: nat

    constructor ()
      ensures released == multiset{} && nextId == 0
    {
      released, nextId := multiset{}, 0;
    }

    method Release(id: nat)
      modifies this`released
      ensures released == old(released) + multiset{id}
    {
      released := released + multiset{id};
    }
  }

  /**
   evmc_make_result: the fields of the result, and the resource it is; `release` is set exactly
   when an output buffer was allocated.
   */
  method MakeResult(ledger: Ledger, malloc: nat -> bool, status: VmSpec.Status, gasLeft: int, gasRefund: int,
                    output: seq<byte>)
      returns (result: VmSpec.Result, raw: Raw)
    modifies ledger`nextId
    ensures output != [] && !malloc(|output|) ==> result == VmSpec.Result(VmSpec.OutOfMemory, 0, 0, None)
    ensures output == [] ==> result == VmSpec.Result(status, gasLeft, gasRefund, None)
    ensures output != [] && malloc(|output|) ==> result == VmSpec.Result(status, gasLeft, gasRefund, Some(output))
    ensures result == VmSpec.MakeResult(malloc, status, gasLeft, gasRefund, output)
    ensures raw == Raw(old(ledger.nextId), result.output.Some?) && ledger.nextId == old(ledger.nextId) + 1
  {
    raw := Raw(ledger.nextId, false);
    ledger.nextId := ledger.nextId + 1;
    result := VmSpec.Result(status, 0, 0, None);
    if |output| != 0 {
      if !malloc(|output|) {
        result := result.(status := VmSpec.OutOfMemory);
        return;
      }
      result := result.(output := Some(output));
      raw := raw.(owns := true);
    }
    result := result.(gasLeft := gasLeft, gasRefund := gasRefund);
  }

  class Result {
    var raw: Raw

    constructor FromRaw(res: Raw)
      ensures raw == res
    {
      raw := res;
    }

    constructor Move(other: Result)
      modifies other
      ensures raw == old(other.raw) && other.raw == Disowned(old(other.raw))
    {
      raw := other.raw;
      new;
      other.raw := other.raw.(owns := false);
    }

    /** The destructor. */
    method Destroy(ledger: Ledger)
      modifies ledger`released
      ensures ledger.released == old(ledger.released) + ReleasedBy(raw)
    {
      if raw.owns {
        ledger.Release(raw.id);
      }
    }

    /** Move assignment; `other` may even be this object. */
    method MoveAssign(other: Result, ledger: Ledger)
      modifies this, other, ledger`released
      ensures ledger.released == old(ledger.released) + ReleasedBy(old(raw))
      ensures other != this ==> raw == old(other.raw) && other.raw == Disowned(old(other.raw))
      ensures other == this ==> raw == Disowned(old(raw))
    {
      Destroy(ledger);
      raw := other.raw;
      other.raw := other.raw.(owns := false);
    }

    method ReleaseRaw() returns (out: Raw)
      modifies this
      ensures out == old(raw) && raw == Disowned(old(raw))
    {
      out := raw;
      raw := raw.(owns := false);
    }
  }

  /** internal::call: the Host's Result becomes a raw one and the temporary wrapper dies. */
  method InternalCall(hostResult: Result, ledger: Ledger) returns (out: Raw)
    modifies hostResult, ledger`released
    ensures out == old(hostResult.raw) && ledger.released == old(ledger.released)
  {
    out := hostResult.ReleaseRaw();
    hostResult.Destroy(ledger);
  }

  /** HostContext::call on the other side: nothing is released on the way and the new wrapper owns it all. */
  method ContextCall(hostResult: Result, ledger: Ledger) returns (r: Result)
    modifies hostResult, ledger`released
    ensures fresh(r) && r.raw == old(hostResult.raw) && ledger.released == old(ledger.released)
  {
    var raw := InternalCall(hostResult, ledger);
    r := new Result.FromRaw(raw);
  }

  /** What destroying an instance pointer destroys. */
  function Owned(instance: Option<nat>): multiset<nat> {
    match instance
    case None => multiset{}
    case Some(id) => multiset{id}
  }

  /** The VM wrapper: m_instance is null or an instance. */
  class Vm {
    var instance: Option<nat>

    constructor FromInstance(vm: Option<nat>)
      ensures instance == vm
    {
      instance := vm;
    }

    constructor Move(other: Vm)
      modifies other
      ensures instance == old(other.instance) && other.instance == None
    {
      instance := other.instance;
      new;
      other.instance := None;
    }

    method Destroy(ledger: Ledger)
      modifies ledger`released
      ensures ledger.released == old(ledger.released) + Owned(instance)
    {
      if instance != None {
        ledger.Release(instance.value);
      }
    }

    /** Move assignment, self-move included. */
    method MoveAssign(other: Vm, ledger: Ledger)
      modifies this, other, ledger`released
      ensures ledger.released == old(ledger.released) + Owned(old(instance))
      ensures instance == (if other == this then None else old(other.instance)) && other.instance == None
    {
      Destroy(ledger);
      instance := other.instance;
      other.instance := None;
    }
  }

  // ---- Whole programs ----

  /** A wrapper object; a dead one has been destroyed. */
  datatype Holder = Holder(raw: Raw, alive: bool)

  datatype World = World(objects: seq<Holder>, taken: multiset<Raw>, released: multiset<nat>)
  const EMPTY := World([], multiset{}, multiset{})

  /** What a program does with wrappers and raw results; `to`, `from` and `i` are object numbers. */
  datatype Action =
    | Wrap(raw: Raw)                   // a wrapper around a result no one else accounts for
    | Adopt(raw: Raw)                  // a wrapper around a raw copy someone took before
    | MoveConstruct(from: nat)
    | MoveAssign(to: nat, from: nat)
    | ReleaseRaw(i: nat)
    | Destroy(i: nat)
    | ReleaseTaken(raw: Raw)           // a taker releases its raw copy

  predicate Live(w: World, i: nat) {
    i < |w.objects| && w.objects[i].alive
  }

  predicate Allowed(w: World, a: Action) {
    match a
    case Wrap(_) => true
    case Adopt(raw) => raw in w.taken
    case MoveConstruct(from) => Live(w, from)
    case MoveAssign(to, from) => Live(w, to) && Live(w, from)
    case ReleaseRaw(i) => Live(w, i)
    case Destroy(i) => Live(w, i)
    case ReleaseTaken(raw) => raw in w.taken
  }

  function Act(w: World, a: Action): World
    requires Allowed(w, a)
  {
    match a
    case Wrap(raw) => w.(objects := w.objects + [Holder(raw, true)])
    case Adopt(raw) => w.(objects := w.objects + [Holder(raw, true)], taken := w.taken - multiset{raw})
    case MoveConstruct(from) =>
      var raw := w.objects[from].raw;
      w.(objects := w.objects[from := Holder(Disowned(raw), true)] + [Holder(raw, true)])
    case MoveAssign(to, from) =>
      var raw := w.objects[from].raw;
      World(w.objects[to := Holder(raw, true)][from := Holder(Disowned(raw), true)],
            w.taken, w.released + ReleasedBy(w.objects[to].raw))
    case ReleaseRaw(i) =>
      var raw := w.objects[i].raw;
      w.(objects := w.objects[i := Holder(Disowned(raw), true)], taken := w.taken + multiset{raw})
    case Destroy(i) =>
      var raw := w.objects[i].raw;
      w.(objects := w.objects[i := Holder(raw, false)], released := w.released + ReleasedBy(raw))
    case ReleaseTaken(raw) =>
      w.(taken := w.taken - multiset{raw}, released := w.released + ReleasedBy(raw))
  }

  /** The state after a program, None if it does something C++ does not allow. */
  function Outcome(actions: seq<Action>): Option<World> {
    if actions == [] then Some(EMPTY)
    else
      match Outcome(actions[..|actions| - 1])
      case None => None
      case Some(w) => if Allowed(w, actions[|actions| - 1]) then Some(Act(w, actions[|actions| - 1])) else None
  }

  // ---- Programs on objects ----

  /** The objects of a program, its raw copies and the releases made are those of the world. */
  ghost predicate Mirrors(w: World, objects: seq<Result>, taken: multiset<Raw>, ledger: Ledger)
    reads objects, ledger
  {
    && |objects| == |w.objects| && taken == w.taken && ledger.released == w.released
    && (forall i, j | 0 <= i < j < |objects| :: objects[i] != objects[j])
    && forall i | 0 <= i < |objects| :: objects[i].raw == w.objects[i].raw
  }

  method ConstructResult(a: Action, objects: seq<Result>, ledger: Ledger, ghost taken: multiset<Raw>, ghost w: World)
      returns (r: Result)
    requires Mirrors(w, objects, taken, ledger) && Allowed(w, a) && (a.Wrap? || a.Adopt? || a.MoveConstruct?)
    modifies objects
    ensures fresh(r) && Mirrors(Act(w, a), objects + [r], Act(w, a).taken, ledger)
  {
    if a.MoveConstruct? {
      r := new Result.Move(objects[a.from]);
    } else {
      r := new Result.FromRaw(a.raw);
    }
  }

  method AssignResult(to: nat, from: nat, objects: seq<Result>, ledger: Ledger,
                      ghost taken: multiset<Raw>, ghost w: World)
    requires Mirrors(w, objects, taken, ledger) && Allowed(w, MoveAssign(to, from))
    modifies objects, ledger`released
    ensures Mirrors(Act(w, MoveAssign(to, from)), objects, taken, ledger)
  {
    objects[to].MoveAssign(objects[from], ledger);
  }

  method HandOverResult(i: nat, objects: seq<Result>, taken: multiset<Raw>, ledger: Ledger, ghost w: World)
      returns (taken': multiset<Raw>)
    requires Mirrors(w, objects, taken, ledger) && Allowed(w, ReleaseRaw(i))
    modifies objects
    ensures Mirrors(Act(w, ReleaseRaw(i)), objects, taken', ledger)
  {
    var raw := objects[i].ReleaseRaw();
    taken' := taken + multiset{raw};
  }

  /** Does one action to the objects themselves. */
  method ActOnResults(a: Action, objects: seq<Result>, taken: multiset<Raw>, ledger: Ledger, ghost w: World)
      returns (objects': seq<Result>, taken': multiset<Raw>)
    requires Mirrors(w, objects, taken, ledger) && Allowed(w, a)
    modifies objects, ledger`released
    ensures Mirrors(Act(w, a), objects', taken', ledger)
    ensures objects <= objects' && forall i | |objects| <= i < |objects'| :: fresh(objects'[i])
  {
    objects', taken' := objects, taken;
    if a.Wrap? || a.Adopt? || a.MoveConstruct? {
      var r := ConstructResult(a, objects, ledger, taken, w);
      objects' := objects + [r];
      taken' := if a.Adopt? then taken - multiset{a.raw} else taken;
    } else if a.MoveAssign? {
      AssignResult(a.to, a.from, objects, ledger, taken, w);
    } else if a.ReleaseRaw? {
      taken' := HandOverResult(a.i, objects, taken, ledger, w);
    } else if a.Destroy? {
      objects[a.i].Destroy(ledger);
    } else {
      if a.raw.owns {
        ledger.Release(a.raw.id);
      }
      taken' := taken - multiset{a.raw};
    }
  }

  /** A whole program run on objects ends in its `Outcome`, so the laws below are laws of the wrappers. */
  method RunOnResults(actions: seq<Action>, ledger: Ledger) returns (objects: seq<Result>, taken: multiset<Raw>)
    requires Outcome(actions).Some? && ledger.released == multiset{}
    modifies ledger`released
    ensures Mirrors(Outcome(actions).value, objects, taken, ledger)
  {
    objects, taken := [], multiset{};
    for n := 0 to |actions|
      invariant Outcome(actions[..n]).Some? && Mirrors(Outcome(actions[..n]).value, objects, taken, ledger)
      invariant forall i | 0 <= i < |objects| :: fresh(objects[i])
    {
      AllowedPrefix(actions, n + 1);
      assert actions[..n + 1][..n] == actions[..n];
      objects, taken := ActOnResults(actions[n], objects, taken, ledger, Outcome(actions[..n]).value);
    }
    assert actions[..|actions|] == actions;
  }

  lemma {:induction false} AllowedPrefix(actions: seq<Action>, n: nat)
    requires Outcome(actions).Some? && n <= |actions|
    ensures Outcome(actions[..n]).Some?
    decreases |actions| - n
  {
    if n < |actions| {
      AllowedPrefix(actions, n + 1);
      assert actions[..n + 1][..n] == actions[..n];
    } else {
      assert actions[..n] == actions;
    }
  }

  /** The actions that VM wrappers have: no raw pointer is ever given up. */
  predicate IsVmAction(a: Action) {
    a.Wrap? || a.MoveConstruct? || a.MoveAssign? || a.Destroy?
  }

  function InstanceOf(raw: Raw): Option<nat> {
    if raw.owns then Some(raw.id) else None
  }

  ghost predicate MirrorsVms(w: World, vms: seq<Vm>, ledger: Ledger)
    reads vms, ledger
  {
    && |vms| == |w.objects| && ledger.released == w.released
    && (forall i, j | 0 <= i < j < |vms| :: vms[i] != vms[j])
    && forall i | 0 <= i < |vms| :: vms[i].instance == InstanceOf(w.objects[i].raw)
  }

  method ConstructVm(a: Action, vms: seq<Vm>, ledger: Ledger, ghost w: World) returns (vm: Vm)
    requires MirrorsVms(w, vms, ledger) && Allowed(w, a) && (a.Wrap? || a.MoveConstruct?)
    modifies vms
    ensures fresh(vm) && MirrorsVms(Act(w, a), vms + [vm], ledger)
  {
    if a.Wrap? {
      vm := new Vm.FromInstance(InstanceOf(a.raw));
    } else {
      vm := new Vm.Move(vms[a.from]);
    }
  }

  method AssignVm(to: nat, from: nat, vms: seq<Vm>, ledger: Ledger, ghost w: World)
    requires MirrorsVms(w, vms, ledger) && Allowed(w, MoveAssign(to, from))
    modifies vms, ledger`released
    ensures MirrorsVms(Act(w, MoveAssign(to, from)), vms, ledger)
  {
    vms[to].MoveAssign(vms[from], ledger);
  }

  method ActOnVms(a: Action, vms: seq<Vm>, ledger: Ledger, ghost w: World) returns (vms': seq<Vm>)
    requires MirrorsVms(w, vms, ledger) && Allowed(w, a) && IsVmAction(a)
    modifies vms, ledger`released
    ensures MirrorsVms(Act(w, a), vms', ledger)
    ensures vms <= vms' && forall i | |vms| <= i < |vms'| :: fresh(vms'[i])
  {
    vms' := vms;
    if a.Wrap? || a.MoveConstruct? {
      var vm := ConstructVm(a, vms, ledger, w);
      vms' := vms + [vm];
    } else if a.MoveAssign? {
      AssignVm(a.to, a.from, vms, ledger, w);
    } else {
      vms[a.i].Destroy(ledger);
    }
  }

  /** The same for programs on VM wrappers. */
  method RunOnVms(actions: seq<Action>, ledger: Ledger) returns (vms: seq<Vm>)
    requires Outcome(actions).Some? && ledger.released == multiset{}
    requires forall i | 0 <= i < |actions| :: IsVmAction(actions[i])
    modifies ledger`released
    ensures MirrorsVms(Outcome(actions).value, vms, ledger)
  {
    vms := [];
    for n := 0 to |actions|
      invariant Outcome(actions[..n]).Some? && MirrorsVms(Outcome(actions[..n]).value, vms, ledger)
      invariant forall i | 0 <= i < |vms| :: fresh(vms[i])
    {
      AllowedPrefix(actions, n + 1);
      assert actions[..n + 1][..n] == actions[..n];
      vms := ActOnVms(actions[n], vms, ledger, Outcome(actions[..n]).value);
    }
    assert actions[..|actions|] == actions;
  }

  // ---- Conservation ----

  function Holding(h: Holder, id: nat): nat {
    if h.alive && h.raw == Raw(id, true) then 1 else 0
  }

  /** The number of live wrappers that would release id. */
  function Held(objects: seq<Holder>, id: nat): nat {
    if objects == [] then 0 else Held(objects[..|objects| - 1], id) + Holding(objects[|objects| - 1], id)
  }

  /** How often a program declares a releasable result as unaccounted for. */
  function Issued(actions: seq<Action>, id: nat): nat {
    if actions == [] then 0
    else Issued(actions[..|actions| - 1], id) + if actions[|actions| - 1] == Wrap(Raw(id, true)) then 1 else 0
  }

  /** Pending releases and past ones. */
  function Account(w: World, id: nat): nat {
    Held(w.objects, id) + w.taken[Raw(id, true)] + w.released[id]
  }

  lemma {:induction false} HeldUpdate(objects: seq<Holder>, i: nat, h: Holder, id: nat)
    requires i < |objects|
    ensures Held(objects[i := h], id) == Held(objects, id) - Holding(objects[i], id) + Holding(h, id)
  {
    var n := |objects| - 1;
    if i < n {
      assert objects[i := h][..n] == objects[..n][i := h];
      HeldUpdate(objects[..n], i, h, id);
    } else {
      assert objects[i := h][..n] == objects[..n];
    }
  }

  lemma HeldAppend(objects: seq<Holder>, h: Holder, id: nat)
    ensures Held(objects + [h], id) == Held(objects, id) + Holding(h, id)
  {
    assert (objects + [h])[..|objects|] == objects;
  }

  lemma MoveConserves(w: World, a: Action, id: nat)
    requires Allowed(w, a) && (a.MoveConstruct? || a.MoveAssign?)
    ensures Account(Act(w, a), id) == Account(w, id)
  {
    var raw := w.objects[a.from].raw;
    match a
    case MoveConstruct(from) =>
      HeldUpdate(w.objects, from, Holder(Disowned(raw), true), id);
      HeldAppend(w.objects[from := Holder(Disowned(raw), true)], Holder(raw, true), id);
    case MoveAssign(to, from) =>
      HeldUpdate(w.objects, to, Holder(raw, true), id);
      HeldUpdate(w.objects[to := Holder(raw, true)], from, Holder(Disowned(raw), true), id);
  }

  lemma HandOverConserves(w: World, a: Action, id: nat)
    requires Allowed(w, a) && (a.Adopt? || a.ReleaseRaw?)
    ensures Account(Act(w, a), id) == Account(w, id)
  {
    match a
    case Adopt(raw) => HeldAppend(w.objects, Holder(raw, true), id);
    case ReleaseRaw(i) => HeldUpdate(w.objects, i, Holder(Disowned(w.objects[i].raw), true), id);
  }

  lemma ActionConserves(w: World, a: Action, id: nat)
    requires Allowed(w, a)
    ensures Account(Act(w, a), id) == Account(w, id) + if a == Wrap(Raw(id, true)) then 1 else 0
  {
    match a
    case Wrap(raw) => HeldAppend(w.objects, Holder(raw, true), id);
    case Destroy(i) => HeldUpdate(w.objects, i, Holder(w.objects[i].raw, false), id);
    case ReleaseTaken(raw) =>
    case MoveConstruct(_) => MoveConserves(w, a, id);
    case MoveAssign(_, _) => MoveConserves(w, a, id);
    case Adopt(_) => HandOverConserves(w, a, id);
    case ReleaseRaw(_) => HandOverConserves(w, a, id);
  }

  /** Past and pending releases of a result always add up to the times it was issued. */
  lemma {:induction false} ReleasesAreConserved(actions: seq<Action>, id: nat)
    requires Outcome(actions).Some?
    ensures Account(Outcome(actions).value, id) == Issued(actions, id)
  {
    if actions != [] {
      var front := actions[..|actions| - 1];
      ReleasesAreConserved(front, id);
      ActionConserves(Outcome(front).value, actions[|actions| - 1], id);
    }
  }

  /** All wrappers are gone or emptied and all takers have released. */
  ghost predicate Settled(w: World, id: nat) {
    (forall i | 0 <= i < |w.objects| :: Holding(w.objects[i], id) == 0) && Raw(id, true) !in w.taken
  }

  lemma {:induction false} NothingHeld(objects: seq<Holder>, id: nat)
    ensures Held(objects, id) == 0 <==> forall i | 0 <= i < |objects| :: Holding(objects[i], id) == 0
  {
    if objects != [] {
      NothingHeld(objects[..|objects| - 1], id);
    }
  }

  /** A result issued once is released at most once, and exactly once when everyone is done with it. */
  lemma ReleasedExactlyOnce(actions: seq<Action>, id: nat)
    requires Outcome(actions).Some? && Issued(actions, id) == 1
    ensures var w := Outcome(actions).value;
            w.released[id] <= 1 && (w.released[id] == 1 <==> Settled(w, id))
  {
    ReleasesAreConserved(actions, id);
    NothingHeld(Outcome(actions).value.objects, id);
  }

  // ---- MockedHost::call ----

  /** n calls of MockedHost::call, each wrapping the same call_result, and the death of every wrapper. */
  function RepeatedCalls(callResult: Raw, n: nat): seq<Action> {
    if n == 0 then [] else RepeatedCalls(callResult, n - 1) + [Wrap(callResult), Destroy(n - 1)]
  }

  lemma OneMoreAction(actions: seq<Action>, a: Action)
    requires Outcome(actions).Some? && Allowed(Outcome(actions).value, a)
    ensures Outcome(actions + [a]) == Some(Act(Outcome(actions).value, a))
  {
    assert (actions + [a])[..|actions|] == actions;
  }

  lemma OneCall(w: World, callResult: Raw)
    ensures var n := |w.objects|; var w' := Act(w, Wrap(callResult));
            && Allowed(w', Destroy(n))
            && |Act(w', Destroy(n)).objects| == n + 1
            && Act(w', Destroy(n)).released == w.released + ReleasedBy(callResult)
  {
  }

  lemma {:induction false} RepeatedCallsRelease(callResult: Raw, n: nat)
    ensures var w := Outcome(RepeatedCalls(callResult, n));
            w.Some? && |w.value.objects| == n && w.value.released[callResult.id] == if callResult.owns then n else 0
  {
    if n > 0 {
      RepeatedCallsRelease(callResult, n - 1);
      OneMoreCall(RepeatedCalls(callResult, n - 1), callResult, n - 1);
    }
  }

  lemma OneMoreCall(before: seq<Action>, callResult: Raw, n: nat)
    requires Outcome(before).Some? && |Outcome(before).value.objects| == n
    ensures var w := Outcome(before + [Wrap(callResult), Destroy(n)]);
            w.Some? && |w.value.objects| == n + 1
            && w.value.released == Outcome(before).value.released + ReleasedBy(callResult)
  {
    OneMoreAction(before, Wrap(callResult));
    OneCall(Outcome(before).value, callResult);
    OneMoreAction(before + [Wrap(callResult)], Destroy(n));
    assert before + [Wrap(callResult), Destroy(n)] == before + [Wrap(callResult)] + [Destroy(n)];
  }

  /** MockedHost::call copies its call_result, so it is linear only for at most one call or no release function. */
  lemma MockedCallIsLinearIff(callResult: Raw, n: nat)
    ensures Outcome(RepeatedCalls(callResult, n)).Some?
    ensures Outcome(RepeatedCalls(callResult, n)).value.released[callResult.id] <= 1 <==> !callResult.owns || n <= 1
  {
    RepeatedCallsRelease(callResult, n);
  }
}
