/**
 The Go binding's registry of host contexts (bindings/go/evmc/evmc.go): concurrent `Execute`
 calls as threads that interleave at every access to the shared counter, map and mutex.
 */
module HostRegistry {
  import opened Bytes

  /** The number of values of a uintptr of 32 or 64 bits. */
  type Range = r: nat | r == 0x1_0000_0000 || r == 0x1_0000_0000_0000_0000 witness 0x1_0000_0000

  type ThreadId = nat
  type Ctx = nat  // the identity of a HostContext

  // ---- The package variables ----

  datatype Variables = Variables(counter: nat, contexts: map<nat, Ctx>)

  /** The id addHostContext hands out, and the variables after it. */
  function AddTo(v: Variables, range: Range, ctx: Ctx): (nat, Variables) {
    (v.counter, Variables((v.counter + 1) % range, v.contexts[v.counter := ctx]))
  }

  function RemoveFrom(v: Variables, id: nat): Variables {
    v.(contexts := v.contexts - {id})
  }

  function Found(contexts: map<nat, Ctx>, id: nat): Option<Ctx> {
    if id in contexts then Some(contexts[id]) else None
  }

  // ---- The calls as threads ----

  /** Where one Execute call is.  Lock acquisitions, shared reads and writes are separate steps. */
  datatype Phase =
    | Called(ctx: Ctx)
    | AddLocked(ctx: Ctx)
    | AddRead(ctx: Ctx, id: nat)       // id := hostContextCounter
    | AddBumped(ctx: Ctx, id: nat)     // hostContextCounter++
    | AddStored(ctx: Ctx, id: nat)     // hostContextMap[id] = ctx
    | Running(ctx: Ctx, id: nat)       // inside C.execute_wrapper
    | GetLocked(ctx: Ctx, id: nat)     // a callback in getHostContext
    | GetRead(ctx: Ctx, id: nat, found: Option<Ctx>)
    | RemoveLocked(ctx: Ctx, id: nat)
    | RemoveDeleted(ctx: Ctx, id: nat)
    | Returned(ctx: Ctx)

  datatype State = State(
    range: Range,
    counter: nat, contexts: map<nat, Ctx>, lock: Option<ThreadId>,
    threads: map<ThreadId, Phase>,
    issued: seq<ThreadId>,                    // the threads that have read the counter, in order
    tickets: map<ThreadId, nat>,              // the position of each of them in that order
    seen: seq<(ThreadId, Option<Ctx>)>)       // results of getHostContext

  predicate HasId(p: Phase) {
    !p.Called? && !p.AddLocked? && !p.Returned?
  }

  /** The call's context is registered. */
  predicate Registered(p: Phase) {
    p.AddStored? || p.Running? || p.GetLocked? || p.GetRead? || p.RemoveLocked?
  }

  predicate InCriticalSection(p: Phase) {
    !p.Called? && !p.Running? && !p.Returned?
  }

  /** The next step of thread t; in `Running` the VM decides between a callback and returning. */
  function Step(s: State, t: ThreadId, callback: bool): Option<State>
    requires t in s.threads
  {
    match s.threads[t]
    case Called(c) => if s.lock == None then Some(At(s.(lock := Some(t)), t, AddLocked(c))) else None
    case AddLocked(c) =>
      Some(At(s.(issued := s.issued + [t], tickets := s.tickets[t := |s.issued|]), t, AddRead(c, s.counter)))
    case AddRead(c, id) => Some(At(s.(counter := (s.counter + 1) % s.range), t, AddBumped(c, id)))
    case AddBumped(c, id) => Some(At(s.(contexts := s.contexts[id := c]), t, AddStored(c, id)))
    case AddStored(c, id) => Some(At(s.(lock := None), t, Running(c, id)))
    case Running(c, id) =>
      if s.lock != None then None
      else Some(At(s.(lock := Some(t)), t, if callback then GetLocked(c, id) else RemoveLocked(c, id)))
    case GetLocked(c, id) =>
      Some(At(s, t, GetRead(c, id, if id in s.contexts then Some(s.contexts[id]) else None)))
    case GetRead(c, id, found) => Some(At(s.(lock := None, seen := s.seen + [(t, found)]), t, Running(c, id)))
    case RemoveLocked(c, id) => Some(At(s.(contexts := s.contexts - {id}), t, RemoveDeleted(c, id)))
    case RemoveDeleted(c, _) => Some(At(s.(lock := None), t, Returned(c)))
    case Returned(_) => None
  }

  function At(s: State, t: ThreadId, p: Phase): State {
    s.(threads := s.threads[t := p])
  }

  /** Any number of Execute calls, none of which has begun. */
  predicate Initial(s: State) {
    && s.counter == 0 && s.contexts == map[] && s.lock == None && s.issued == [] && s.tickets == map[] && s.seen == []
    && forall t | t in s.threads :: s.threads[t].Called?
  }

  /** The state after a schedule of (thread, callback?) choices; None if a chosen thread is blocked. */
  function Run(s: State, schedule: seq<(ThreadId, bool)>): Option<State> {
    if schedule == [] then Some(s)
    else
      var (t, callback) := schedule[|schedule| - 1];
      match Run(s, schedule[..|schedule| - 1])
      case None => None
      case Some(before) => if t in before.threads then Step(before, t, callback) else None
  }

  // ---- The invariant ----

  ghost predicate MutualExclusion(s: State) {
    && (s.lock.Some? ==> s.lock.value in s.threads && InCriticalSection(s.threads[s.lock.value]))
    && forall t | t in s.threads && InCriticalSection(s.threads[t]) :: s.lock == Some(t)
  }

  ghost predicate DistinctIds(s: State) {
    forall t, u | t in s.threads && u in s.threads && t != u && HasId(s.threads[t]) && HasId(s.threads[u]) ::
      s.threads[t].id != s.threads[u].id
  }

  ghost predicate InFlightAreHeld(s: State) {
    forall t | t in s.threads && Registered(s.threads[t]) ::
      s.threads[t].id in s.contexts && s.contexts[s.threads[t].id] == s.threads[t].ctx
  }

  ghost predicate HeldAreInFlight(s: State) {
    forall id | id in s.contexts :: exists t :: Owns(s, t, id)
  }

  predicate Owns(s: State, t: ThreadId, id: nat) {
    t in s.threads && Registered(s.threads[t]) && s.threads[t].id == id
  }

  /** The map holds exactly the contexts in flight, under their ids. */
  ghost predicate HoldsInFlight(s: State) {
    InFlightAreHeld(s) && HeldAreInFlight(s)
  }

  /** Every callback got the context of its own Execute call. */
  ghost predicate CallbacksCorrect(s: State) {
    && (forall i | 0 <= i < |s.seen| :: s.seen[i].0 in s.threads && s.seen[i].1 == Some(s.threads[s.seen[i].0].ctx))
    && (forall t | t in s.threads && s.threads[t].GetRead? :: s.threads[t].found == Some(s.threads[t].ctx))
  }

  /** A thread has read the counter and not yet advanced it. */
  ghost predicate ReadPending(s: State) {
    s.lock.Some? && s.lock.value in s.threads && s.threads[s.lock.value].AddRead?
  }

  /** The id a counter that started at 0 holds after n increments: n modulo the range. */
  function IdOf(n: nat, range: Range): nat {
    if n < range then n else IdOf(n - range, range)
  }

  lemma {:induction false} IdIsModulo(n: nat, range: Range)
    ensures IdOf(n, range) == n % range
    decreases n
  {
    if n >= range {
      IdIsModulo(n - range, range);
      OneRoundLess(n, range);
    }
  }

  lemma OneRoundLess(n: nat, range: Range)
    requires n >= range
    ensures (n - range) % range == n % range
  {
  }

  lemma NextId(n: nat, range: Range)
    ensures IdOf(n + 1, range) == (IdOf(n, range) + 1) % range
  {
    IdIsModulo(n, range);
    IdIsModulo(n + 1, range);
    NextModulo(n, range);
  }

  lemma NextModulo(n: nat, range: Range)
    ensures (n % range + 1) % range == (n + 1) % range
  {
  }

  /** A call in flight has an id of its own turn, and the counter is the id of the next one. */
  ghost predicate TicketsOk(s: State) {
    && (forall t | t in s.threads && HasId(s.threads[t]) :: HoldsTicket(s, t))
    && (ReadPending(s) ==> s.issued != [])
    && s.counter == IdOf(if ReadPending(s) then |s.issued| - 1 else |s.issued|, s.range)
  }

  predicate HoldsTicket(s: State, t: ThreadId)
    requires t in s.threads && HasId(s.threads[t])
  {
    && t in s.tickets && s.tickets[t] < |s.issued| && s.issued[s.tickets[t]] == t
    && s.threads[t].id == IdOf(s.tickets[t], s.range)
  }

  ghost predicate Inv(s: State) {
    && MutualExclusion(s) && DistinctIds(s) && HoldsInFlight(s) && CallbacksCorrect(s) && TicketsOk(s)
  }

  /** What a step of thread t may change. */
  ghost predicate Moves(s: State, s': State, t: ThreadId)
    requires t in s.threads
  {
    && t in s'.threads &&
    var p, p' := s.threads[t], s'.threads[t];
    && s'.threads == s.threads[t := p'] && p'.ctx == p.ctx && s'.range == s.range
    && (p.AddLocked? ==> p' == AddRead(p.ctx, s.counter))
    && (HasId(p') && !p.AddLocked? ==> HasId(p) && p'.id == p.id)
    && (Registered(p') ==> Registered(p) || p.AddBumped?)
    && s'.issued == (if p.AddLocked? then s.issued + [t] else s.issued)
    && s'.tickets == (if p.AddLocked? then s.tickets[t := |s.issued|] else s.tickets)
    && s'.counter == (if p.AddRead? then (s.counter + 1) % s.range else s.counter)
    && s'.contexts == (if p.AddBumped? then s.contexts[p.id := p.ctx]
                       else if p.RemoveLocked? then s.contexts - {p.id}
                       else s.contexts)
    && (p.RemoveLocked? ==> !Registered(p'))
    && (p.AddBumped? ==> Registered(p'))
    && (Registered(p) && !p.RemoveLocked? ==> Registered(p'))
    && (p'.GetRead? ==> Registered(p) && p'.found == Found(s.contexts, p.id))
    && s'.seen == (if p.GetRead? then s.seen + [(t, p.found)] else s.seen)
  }

  lemma StepMoves(s: State, t: ThreadId, callback: bool)
    requires t in s.threads && Step(s, t, callback).Some?
    ensures Moves(s, Step(s, t, callback).value, t)
  {
  }

  lemma StepKeepsMutex(s: State, t: ThreadId, callback: bool)
    requires t in s.threads && MutualExclusion(s) && Step(s, t, callback).Some?
    ensures MutualExclusion(Step(s, t, callback).value)
  {
  }

  lemma PendingAround(s: State, t: ThreadId, callback: bool)
    requires t in s.threads && MutualExclusion(s) && Step(s, t, callback).Some?
    ensures ReadPending(s) <==> s.threads[t].AddRead?
    ensures ReadPending(Step(s, t, callback).value) <==> s.threads[t].AddLocked?
  {
  }

  lemma MoveKeepsTickets(s: State, s': State, t: ThreadId)
    requires t in s.threads && Moves(s, s', t) && TicketsOk(s)
    requires (ReadPending(s) <==> s.threads[t].AddRead?) && (ReadPending(s') <==> s.threads[t].AddLocked?)
    ensures TicketsOk(s')
  {
    if s.threads[t].AddRead? {
      NextId(|s.issued| - 1, s.range);
    }
  }

  lemma MoveKeepsHeld(s: State, s': State, t: ThreadId)
    requires t in s.threads && Moves(s, s', t) && DistinctIds(s) && InFlightAreHeld(s)
    ensures InFlightAreHeld(s')
  {
  }

  lemma MoveKeepsOwners(s: State, s': State, t: ThreadId)
    requires t in s.threads && Moves(s, s', t) && HeldAreInFlight(s)
    ensures HeldAreInFlight(s')
  {
    forall id | id in s'.contexts ensures exists u :: Owns(s', u, id) {
      if s.threads[t].AddBumped? && s.threads[t].id == id {
        assert Owns(s', t, id);
      } else {
        var u :| Owns(s, u, id);
        assert Owns(s', u, id);
      }
    }
  }

  lemma MoveKeepsCallbacks(s: State, s': State, t: ThreadId)
    requires t in s.threads && Moves(s, s', t) && InFlightAreHeld(s) && CallbacksCorrect(s)
    ensures CallbacksCorrect(s')
  {
  }

  // ---- Every interleaving ----

  /** What holds in every interleaving, however often the counter has wrapped. */
  lemma {:induction false} EveryRun(s: State, schedule: seq<(ThreadId, bool)>)
    requires Initial(s) && Run(s, schedule).Some?
    ensures var now := Run(s, schedule).value; MutualExclusion(now) && TicketsOk(now) && HeldAreInFlight(now)
  {
    if schedule != [] {
      var front := schedule[..|schedule| - 1];
      var (t, callback) := schedule[|schedule| - 1];
      var before := Run(s, front).value;
      EveryRun(s, front);
      var now := Run(s, schedule).value;
      StepMoves(before, t, callback);
      StepKeepsMutex(before, t, callback);
      PendingAround(before, t, callback);
      MoveKeepsTickets(before, now, t);
      MoveKeepsOwners(before, now, t);
    }
  }

  /** Since a call in flight got its id, that one included, at most `range` ids have been handed out. */
  ghost predicate UnderLimit(s: State) {
    forall t | t in s.threads && HasId(s.threads[t]) && t in s.tickets :: |s.issued| - s.tickets[t] <= s.range
  }

  /** The limit is kept all along a schedule. */
  ghost predicate WithinLimit(s: State, schedule: seq<(ThreadId, bool)>) {
    && Run(s, schedule).Some? && UnderLimit(Run(s, schedule).value)
    && (schedule != [] ==> WithinLimit(s, schedule[..|schedule| - 1]))
  }

  /** Two calls in flight never share an id. */
  ghost predicate AlwaysDistinct(s: State, schedule: seq<(ThreadId, bool)>) {
    && Run(s, schedule).Some? && DistinctIds(Run(s, schedule).value)
    && (schedule != [] ==> AlwaysDistinct(s, schedule[..|schedule| - 1]))
  }

  lemma {:induction false} WindowIsInjective(a: nat, b: nat, range: Range)
    requires a <= b < a + range && IdOf(a, range) == IdOf(b, range)
    ensures a == b
    decreases b
  {
    if a >= range {
      WindowIsInjective(a - range, b - range, range);
    }
  }

  lemma LimitMakesDistinct(s: State)
    requires TicketsOk(s) && UnderLimit(s)
    ensures DistinctIds(s)
  {
    forall t, u | t in s.threads && u in s.threads && t != u && HasId(s.threads[t]) && HasId(s.threads[u])
      ensures s.threads[t].id != s.threads[u].id
    {
      if s.threads[t].id == s.threads[u].id {
        if s.tickets[t] <= s.tickets[u] {
          WindowIsInjective(s.tickets[t], s.tickets[u], s.range);
        } else {
          WindowIsInjective(s.tickets[u], s.tickets[t], s.range);
        }
      }
    }
  }

  /** The step that exceeds the limit hands out an id that is in use. */
  lemma ExceedingRepeatsId(s: State, s': State, t: ThreadId) returns (u: ThreadId)
    requires t in s.threads && Moves(s, s', t) && TicketsOk(s) && TicketsOk(s') && UnderLimit(s) && !UnderLimit(s')
    ensures s.threads[t].AddLocked? && t in s'.threads && HasId(s'.threads[t])
    ensures u != t && u in s'.threads && HasId(s'.threads[u]) && s'.threads[u].id == s'.threads[t].id
  {
    u :| u in s'.threads && HasId(s'.threads[u]) && u in s'.tickets && |s'.issued| - s'.tickets[u] > s'.range;
    assert HoldsTicket(s', u);
    assert u != t && s.threads[t].AddLocked? && HasId(s.threads[u]) && HasId(s'.threads[t]);
    assert HoldsTicket(s', t) && s'.tickets[t] == s'.tickets[u] + s'.range;
  }

  /** The limit is exact: it is kept if and only if ids in flight never collide. */
  lemma {:induction false} DistinctIffWithinLimit(s: State, schedule: seq<(ThreadId, bool)>)
    requires Initial(s) && Run(s, schedule).Some?
    ensures WithinLimit(s, schedule) <==> AlwaysDistinct(s, schedule)
  {
    EveryRun(s, schedule);
    var now := Run(s, schedule).value;
    if schedule == [] {
      assert UnderLimit(now) && DistinctIds(now);
    } else {
      var front := schedule[..|schedule| - 1];
      var (t, callback) := schedule[|schedule| - 1];
      DistinctIffWithinLimit(s, front);
      EveryRun(s, front);
      if UnderLimit(now) {
        LimitMakesDistinct(now);
      } else if WithinLimit(s, front) {
        StepMoves(Run(s, front).value, t, callback);
        var _ := ExceedingRepeatsId(Run(s, front).value, now, t);
      }
    }
  }

  /** As long as the limit is kept, every interleaving keeps the registry correct. */
  lemma {:induction false} EveryInterleavingIsSafe(s: State, schedule: seq<(ThreadId, bool)>)
    requires Initial(s) && WithinLimit(s, schedule)
    ensures Inv(Run(s, schedule).value)
  {
    EveryRun(s, schedule);
    LimitMakesDistinct(Run(s, schedule).value);
    if schedule != [] {
      var front := schedule[..|schedule| - 1];
      var (t, callback) := schedule[|schedule| - 1];
      var before := Run(s, front).value;
      EveryInterleavingIsSafe(s, front);
      StepMoves(before, t, callback);
      MoveKeepsHeld(before, Run(s, schedule).value, t);
      MoveKeepsCallbacks(before, Run(s, schedule).value, t);
    }
  }

  /** When all calls have returned the registry is empty and unlocked. */
  lemma NothingLeftBehind(s: State, schedule: seq<(ThreadId, bool)>)
    requires Initial(s) && Run(s, schedule).Some?
    requires forall t | t in Run(s, schedule).value.threads :: Run(s, schedule).value.threads[t].Returned?
    ensures Run(s, schedule).value.contexts == map[] && Run(s, schedule).value.lock == None
  {
    EveryRun(s, schedule);
    var end := Run(s, schedule).value;
    assert forall id | id in end.contexts :: false;
  }

  /** Some thread can always move until all calls have returned. */
  lemma NeverStuck(s: State, schedule: seq<(ThreadId, bool)>)
    requires Initial(s) && Run(s, schedule).Some?
    requires exists t :: t in Run(s, schedule).value.threads && !Run(s, schedule).value.threads[t].Returned?
    ensures exists t :: t in Run(s, schedule).value.threads && Step(Run(s, schedule).value, t, false).Some?
  {
    EveryRun(s, schedule);
    var now := Run(s, schedule).value;
    var t :| t in now.threads && !now.threads[t].Returned?;
    var mover := if now.lock.Some? then now.lock.value else t;
    assert Step(now, mover, false).Some?;
  }

  /** While one thread is in its critical section no other thread can take a step. */
  lemma CriticalSectionsAreAtomic(s: State, t: ThreadId, u: ThreadId, callback: bool)
    requires MutualExclusion(s) && t in s.threads && InCriticalSection(s.threads[t])
    requires u in s.threads && u != t
    ensures Step(s, u, callback) == None
  {
  }

  // ---- The three functions ----

  /** The package variables; a method is the critical section of the function. */
  class Registry {
    const range: Range
    var counter: nat
    var contexts: map<nat, Ctx>

    ghost function Current(): Variables
      reads this
    {
      Variables(counter, contexts)
    }

    constructor (range: Range)
      ensures this.range == range && Current() == Variables(0, map[])
    {
      this.range := range;
      counter, contexts := 0, map[];
    }

    method AddHostContext(ctx: Ctx) returns (id: nat)
      modifies this
      ensures (id, Current()) == AddTo(old(Current()), range, ctx)
    {
      id := counter;
      counter := (counter + 1) % range;
      contexts := contexts[id := ctx];
    }

    method RemoveHostContext(id: nat)
      modifies this`contexts
      ensures Current() == RemoveFrom(old(Current()), id)
    {
      contexts := contexts - {id};
    }

    method GetHostContext(id: nat) returns (ctx: Option<Ctx>)
      ensures ctx == Found(Current().contexts, id)
    {
      ctx := if id in contexts then Some(contexts[id]) else None;
    }
  }

  function VariablesOf(s: State): Variables {
    Variables(s.counter, s.contexts)
  }

  function WithVariables(s: State, v: Variables): State {
    s.(counter := v.counter, contexts := v.contexts)
  }

  function AddSchedule(t: ThreadId): seq<(ThreadId, bool)> {
    [(t, false), (t, false), (t, false), (t, false), (t, false)]
  }

  function GetSchedule(t: ThreadId): seq<(ThreadId, bool)> {
    [(t, true), (t, false), (t, false)]
  }

  /** removeHostContext, or the last three steps of addHostContext. */
  function ThreeSteps(t: ThreadId): seq<(ThreadId, bool)> {
    [(t, false), (t, false), (t, false)]
  }

  /** The state after addHostContext: the method's effect on the variables, and the thread has its id. */
  function Added(s: State, t: ThreadId, ctx: Ctx): State {
    var (id, v) := AddTo(VariablesOf(s), s.range, ctx);
    WithVariables(s, v).(issued := s.issued + [t], tickets := s.tickets[t := |s.issued|],
                         threads := s.threads[t := Running(ctx, id)])
  }

  /** The state after removeHostContext. */
  function Removed(s: State, t: ThreadId, ctx: Ctx, id: nat): State {
    WithVariables(s, RemoveFrom(VariablesOf(s), id)).(threads := s.threads[t := Returned(ctx)])
  }

  /** The counter has been advanced, the context not yet stored. */
  function Bumped(s: State, t: ThreadId, ctx: Ctx): State {
    s.(counter := (s.counter + 1) % s.range, issued := s.issued + [t], tickets := s.tickets[t := |s.issued|],
       lock := Some(t), threads := s.threads[t := AddBumped(ctx, s.counter)])
  }

  lemma AddBegins(s: State, t: ThreadId)
    requires t in s.threads && s.threads[t].Called? && s.lock == None
    ensures Run(s, ThreeSteps(t)) == Some(Bumped(s, t, s.threads[t].ctx))
  {
    var c, id := s.threads[t].ctx, s.counter;
    var s1 := At(s.(lock := Some(t)), t, AddLocked(c));
    var s2 := At(s1.(issued := s.issued + [t], tickets := s.tickets[t := |s.issued|]), t, AddRead(c, id));
    var s3 := At(s2.(counter := (s.counter + 1) % s.range), t, AddBumped(c, id));
    Again(s.threads, t, AddLocked(c), AddRead(c, id));
    Again(s.threads, t, AddRead(c, id), AddBumped(c, id));
    RunThree(s, s1, s2, s3, t, false);
  }

  lemma AddEnds(s: State, t: ThreadId, ctx: Ctx)
    requires s.lock == None
    ensures var mid := Bumped(s, t, ctx).(contexts := s.contexts[s.counter := ctx],
                                          threads := s.threads[t := AddStored(ctx, s.counter)]);
            Leads(Bumped(s, t, ctx), t, false, mid) && Leads(mid, t, false, Added(s, t, ctx))
  {
    Again(s.threads, t, AddBumped(ctx, s.counter), AddStored(ctx, s.counter));
    Again(s.threads, t, AddStored(ctx, s.counter), Running(ctx, s.counter));
  }

  /** A thread that runs addHostContext without interruption does what the method does. */
  lemma AddRunsAsMethod(s: State, t: ThreadId)
    requires t in s.threads && s.threads[t].Called? && s.lock == None
    ensures Run(s, AddSchedule(t)) == Some(Added(s, t, s.threads[t].ctx))
  {
    var x, c := (t, false), s.threads[t].ctx;
    AddBegins(s, t);
    AddEnds(s, t, c);
    var mid := Step(Bumped(s, t, c), t, false).value;
    RunTwo(s, [x, x, x], Bumped(s, t, c), mid, Added(s, t, c), x);
    assert [x, x, x] + [x, x] == AddSchedule(t);
  }

  lemma Again(threads: map<ThreadId, Phase>, t: ThreadId, p: Phase, p': Phase)
    ensures threads[t := p][t := p'] == threads[t := p']
  {
  }

  /** A callback that runs getHostContext without interruption. */
  lemma GetRunsAsMethod(s: State, t: ThreadId)
    requires t in s.threads && s.threads[t].Running? && s.lock == None
    ensures Run(s, GetSchedule(t)) == Some(s.(seen := s.seen + [(t, Found(s.contexts, s.threads[t].id))]))
  {
    var c, id := s.threads[t].ctx, s.threads[t].id;
    var found := Found(s.contexts, id);
    var s1 := At(s.(lock := Some(t)), t, GetLocked(c, id));
    var s2 := At(s1, t, GetRead(c, id, found));
    var s3 := At(s2.(lock := None, seen := s.seen + [(t, found)]), t, Running(c, id));
    RunThree(s, s1, s2, s3, t, true);
    assert s3.threads == s.threads;
  }

  /** removeHostContext without interruption. */
  lemma RemoveRunsAsMethod(s: State, t: ThreadId)
    requires t in s.threads && s.threads[t].Running? && s.lock == None
    ensures Run(s, ThreeSteps(t)) == Some(Removed(s, t, s.threads[t].ctx, s.threads[t].id))
  {
    var c, id := s.threads[t].ctx, s.threads[t].id;
    var s1 := At(s.(lock := Some(t)), t, RemoveLocked(c, id));
    var s2 := At(s1.(contexts := s.contexts - {id}), t, RemoveDeleted(c, id));
    var s3 := At(s2.(lock := None), t, Returned(c));
    RunThree(s, s1, s2, s3, t, false);
    assert s3.threads == s.threads[t := Returned(c)];
  }

  predicate Leads(s: State, t: ThreadId, callback: bool, s': State) {
    t in s.threads && Step(s, t, callback) == Some(s')
  }

  lemma RunThree(s: State, s1: State, s2: State, s3: State, t: ThreadId, first: bool)
    requires Leads(s, t, first, s1) && Leads(s1, t, false, s2) && Leads(s2, t, false, s3)
    ensures Run(s, [(t, first), (t, false), (t, false)]) == Some(s3)
  {
    RunOne(s, [], (t, first));
    assert [] + [(t, first)] == [(t, first)];
    RunTwo(s, [(t, first)], s1, s2, s3, (t, false));
    assert [(t, first)] + [(t, false), (t, false)] == [(t, first), (t, false), (t, false)];
  }

  lemma RunTwo(s: State, schedule: seq<(ThreadId, bool)>, now: State, mid: State, end: State, x: (ThreadId, bool))
    requires Run(s, schedule) == Some(now) && Leads(now, x.0, x.1, mid) && Leads(mid, x.0, x.1, end)
    ensures Run(s, schedule + [x, x]) == Some(end)
  {
    RunOne(s, schedule, x);
    RunOne(s, schedule + [x], x);
    assert schedule + [x, x] == schedule + [x] + [x];
  }

  lemma RunOne(s: State, schedule: seq<(ThreadId, bool)>, x: (ThreadId, bool))
    requires Run(s, schedule).Some? && x.0 in Run(s, schedule).value.threads
    ensures Run(s, schedule + [x]) == Step(Run(s, schedule).value, x.0, x.1)
  {
    assert (schedule + [x])[..|schedule|] == schedule;
  }

  // ---- A run that exceeds the limit ----

  lemma {:induction false} RunConcat(s: State, a: seq<(ThreadId, bool)>, b: seq<(ThreadId, bool)>)
    requires Run(s, a).Some?
    ensures Run(s, a + b) == Run(Run(s, a).value, b)
  {
    if b == [] {
      assert a + b == a;
    } else {
      RunConcat(s, a, b[..|b| - 1]);
      assert (a + b)[..|a + b| - 1] == a + b[..|b| - 1];
    }
  }

  /** range + 1 calls, each with its own number as context. */
  ghost function Start(range: Range): State {
    State(range, 0, map[], None, map t: nat | t <= range :: Called(t), [], map[], [])
  }

  /** Call 0 begins and stays in flight while calls 1 to n - 1 begin and return one after the other. */
  function Churn(n: nat): seq<(ThreadId, bool)> {
    if n == 0 then []
    else if n == 1 then AddSchedule(0)
    else Churn(n - 1) + (AddSchedule(n - 1) + ThreeSteps(n - 1))
  }

  ghost predicate AfterChurn(s: State, n: nat, range: Range) {
    && s.range == range && s.counter == IdOf(n, range) && s.contexts == map[0 := 0] && s.lock == None && |s.issued| == n
    && s.seen == [] && 0 in s.threads && s.threads[0] == Running(0, 0)
    && forall t: nat | n <= t <= range :: t in s.threads && s.threads[t] == Called(t)
  }

  lemma RunBoth(s: State, a: seq<(ThreadId, bool)>, mid: State, b: seq<(ThreadId, bool)>, end: State)
    requires Run(s, a) == Some(mid) && Run(mid, b) == Some(end)
    ensures Run(s, a + b) == Some(end)
  {
    RunConcat(s, a, b);
  }

  /** The state after a call without callbacks. */
  function CalledOnce(s: State, t: ThreadId, ctx: Ctx): State {
    Removed(Added(s, t, ctx), t, ctx, s.counter)
  }

  lemma CallRuns(s: State, t: ThreadId)
    requires t in s.threads && s.threads[t].Called? && s.lock == None
    ensures Run(s, AddSchedule(t) + ThreeSteps(t)) == Some(CalledOnce(s, t, s.threads[t].ctx))
  {
    var mid := Added(s, t, s.threads[t].ctx);
    AddRunsAsMethod(s, t);
    RemoveRunsAsMethod(mid, t);
    RunBoth(s, AddSchedule(t), mid, ThreeSteps(t), CalledOnce(s, t, s.threads[t].ctx));
  }

  lemma CallRestores(s: State, n: nat, range: Range)
    requires 0 < n < range && AfterChurn(s, n, range)
    ensures AfterChurn(CalledOnce(s, n, n), n + 1, range)
  {
    NextId(n, range);
    assert s.contexts[n := n] - {n} == map[0 := 0];
  }

  lemma FirstCall(range: Range)
    ensures AfterChurn(Added(Start(range), 0, 0), 1, range)
  {
  }

  lemma {:induction false} ChurnState(n: nat, range: Range)
    requires 0 < n <= range
    ensures Run(Start(range), Churn(n)).Some? && AfterChurn(Run(Start(range), Churn(n)).value, n, range)
  {
    if n == 1 {
      AddRunsAsMethod(Start(range), 0);
      FirstCall(range);
    } else {
      ChurnState(n - 1, range);
      var s := Run(Start(range), Churn(n - 1)).value;
      CallRuns(s, n - 1);
      CallRestores(s, n - 1, range);
      RunBoth(Start(range), Churn(n - 1), s, AddSchedule(n - 1) + ThreeSteps(n - 1), CalledOnce(s, n - 1, n - 1));
    }
  }

  /** The last of `range` + 1 calls gets the id of call 0, whose next callback is misled. */
  lemma OneCallTooMany(s: State, range: Range)
    requires AfterChurn(s, range, range)
    ensures var end := Added(s, range, range);
            && end.threads[0] == Running(0, 0) && end.lock == None && |end.issued| == range + 1 && end.seen == []
            && Found(end.contexts, 0) == Some(range)
  {
    IdIsModulo(range, range);
  }

  lemma AddThenGet(s: State, t: ThreadId, u: ThreadId)
    requires t in s.threads && s.threads[t].Called? && s.lock == None
    requires u in s.threads && u != t && s.threads[u].Running?
    ensures var mid := Added(s, t, s.threads[t].ctx); var found := Found(mid.contexts, s.threads[u].id);
            Run(s, AddSchedule(t) + GetSchedule(u)) == Some(mid.(seen := mid.seen + [(u, found)]))
  {
    var mid := Added(s, t, s.threads[t].ctx);
    AddRunsAsMethod(s, t);
    GetRunsAsMethod(mid, u);
    RunBoth(s, AddSchedule(t), mid, GetSchedule(u), Run(mid, GetSchedule(u)).value);
  }

  lemma MisledRun(before: State, schedule: seq<(ThreadId, bool)>, range: Range)
    requires Run(before, schedule).Some? && AfterChurn(Run(before, schedule).value, range, range)
    ensures var end := Run(before, schedule + (AddSchedule(range) + GetSchedule(0)));
            && end.Some? && |end.value.issued| == range + 1 && 0 in end.value.threads
            && end.value.threads[0] == Running(0, 0) && end.value.seen == [(0, Some(range))]
  {
    var s := Run(before, schedule).value;
    OneCallTooMany(s, range);
    AddThenGet(s, range, 0);
    RunConcat(before, schedule, AddSchedule(range) + GetSchedule(0));
  }

  /**
   One call too many: call 0 is in flight while `range` others begin, the last of them gets
   the id of call 0, and a callback of call 0 is given the context of that other call.
   */
  lemma WrappedIdMisleadsCallback(range: Range)
    ensures Initial(Start(range))
    ensures var end := Run(Start(range), Churn(range) + (AddSchedule(range) + GetSchedule(0)));
            && end.Some? && |end.value.issued| == range + 1 && 0 in end.value.threads
            && end.value.threads[0] == Running(0, 0) && end.value.seen == [(0, Some(range))]
            && !CallbacksCorrect(end.value)
  {
    ChurnState(range, range);
    MisledRun(Start(range), Churn(range), range);
    var end := Run(Start(range), Churn(range) + (AddSchedule(range) + GetSchedule(0))).value;
    assert end.seen[0].1 == Some(range) && end.threads[end.seen[0].0].ctx == 0;
  }

  // ---- Beyond the limit ----

  /** The state after a thread that has just read the counter has stored its context and begun to run. */
  function Stored(s: State, t: ThreadId, ctx: Ctx, id: nat): State {
    s.(counter := (s.counter + 1) % s.range, contexts := s.contexts[id := ctx], lock := None,
       threads := s.threads[t := Running(ctx, id)])
  }

  /** The state after it has returned: whatever was registered under its id is gone. */
  function Finished(s: State, t: ThreadId, ctx: Ctx, id: nat): State {
    Removed(Stored(s, t, ctx, id), t, ctx, id)
  }

  lemma BumpThenStores(s: State, t: ThreadId, ctx: Ctx, id: nat)
    requires t in s.threads && s.threads[t] == AddBumped(ctx, id)
    ensures var mid := At(s.(contexts := s.contexts[id := ctx]), t, AddStored(ctx, id));
            Leads(s, t, false, mid) && Leads(mid, t, false, At(mid.(lock := None), t, Running(ctx, id)))
  {
  }

  lemma ReadThenStores(s: State, t: ThreadId)
    requires t in s.threads && s.threads[t].AddRead?
    ensures Run(s, ThreeSteps(t)) == Some(Stored(s, t, s.threads[t].ctx, s.threads[t].id))
  {
    var c, id := s.threads[t].ctx, s.threads[t].id;
    var s1 := At(s.(counter := (s.counter + 1) % s.range), t, AddBumped(c, id));
    assert Leads(s, t, false, s1);
    BumpThenStores(s1, t, c, id);
    var s2 := At(s1.(contexts := s.contexts[id := c]), t, AddStored(c, id));
    Again(s.threads, t, AddBumped(c, id), AddStored(c, id));
    Again(s.threads, t, AddStored(c, id), Running(c, id));
    RunThree(s, s1, s2, Stored(s, t, c, id), t, false);
  }

  lemma ReadThenReturns(s: State, t: ThreadId)
    requires t in s.threads && s.threads[t].AddRead?
    ensures Run(s, ThreeSteps(t) + ThreeSteps(t)) == Some(Finished(s, t, s.threads[t].ctx, s.threads[t].id))
  {
    var mid := Stored(s, t, s.threads[t].ctx, s.threads[t].id);
    ReadThenStores(s, t);
    RemoveRunsAsMethod(mid, t);
    RunBoth(s, ThreeSteps(t), mid, ThreeSteps(t), Finished(s, t, s.threads[t].ctx, s.threads[t].id));
  }

  /** If that id belongs to another call in flight, the next callback of that call finds nothing. */
  lemma SharedIdLosesContext(s: State, t: ThreadId, u: ThreadId)
    requires t in s.threads && s.threads[t].AddRead? && u in s.threads && u != t && s.threads[u].Running?
    requires s.threads[u].id == s.threads[t].id
    ensures var end := Run(s, ThreeSteps(t) + ThreeSteps(t) + GetSchedule(u));
            end.Some? && end.value.seen == s.seen + [(u, None)]
  {
    var mid := Finished(s, t, s.threads[t].ctx, s.threads[t].id);
    ReadThenReturns(s, t);
    GetRunsAsMethod(mid, u);
    RunBoth(s, ThreeSteps(t) + ThreeSteps(t), mid, GetSchedule(u), Run(mid, GetSchedule(u)).value);
  }

  /**
   Past the limit the registry is not safe: whenever a step exceeds it, some continuation
   gives a callback no context at all.
   */
  lemma ReusedIdBreaksCallbacks(s: State, schedule: seq<(ThreadId, bool)>, t: ThreadId, callback: bool)
    requires Initial(s) && WithinLimit(s, schedule) && Run(s, schedule + [(t, callback)]).Some?
    requires !UnderLimit(Run(s, schedule + [(t, callback)]).value)
    ensures exists more :: Misleads(s, schedule + [(t, callback)] + more)
  {
    var all := schedule + [(t, callback)];
    assert all[..|all| - 1] == schedule;
    var before, now := Run(s, schedule).value, Run(s, all).value;
    EveryRun(s, schedule);
    EveryRun(s, all);
    StepMoves(before, t, callback);
    var u := ExceedingRepeatsId(before, now, t);
    assert now.threads[t].AddRead? && InCriticalSection(now.threads[t]) && now.threads[u].Running?;
    SharedIdLosesContext(now, t, u);
    var more := ThreeSteps(t) + ThreeSteps(t) + GetSchedule(u);
    RunConcat(s, all, more);
    LostContextIsSeen(Run(now, more).value, now.seen, u);
    assert Misleads(s, all + more);
  }

  lemma LostContextIsSeen(s: State, seen: seq<(ThreadId, Option<Ctx>)>, u: ThreadId)
    requires s.seen == seen + [(u, None)]
    ensures !CallbacksCorrect(s)
  {
    assert s.seen[|seen|] == (u, None);
  }

  /** The run ends with a callback that was not given its own context. */
  ghost predicate Misleads(s: State, schedule: seq<(ThreadId, bool)>) {
    Run(s, schedule).Some? && !CallbacksCorrect(Run(s, schedule).value)
  }

  // ---- Progress ----

  /** Steps left without further callbacks, at most. */
  function StepsLeft(p: Phase): nat {
    match p
    case Called(_) => 8
    case AddLocked(_) => 7
    case AddRead(_, _) => 6
    case AddBumped(_, _) => 5
    case AddStored(_, _) => 4
    case GetLocked(_, _) => 5
    case GetRead(_, _, _) => 4
    case Running(_, _) => 3
    case RemoveLocked(_, _) => 2
    case RemoveDeleted(_, _) => 1
    case Returned(_) => 0
  }

  function AllStepsLeft(threads: map<ThreadId, Phase>, order: seq<ThreadId>): nat {
    if order == [] then 0
    else
      var t := order[|order| - 1];
      AllStepsLeft(threads, order[..|order| - 1]) + if t in threads then StepsLeft(threads[t]) else 0
  }

  lemma {:induction false} OneStepLess(threads: map<ThreadId, Phase>, t: ThreadId, p: Phase, order: seq<ThreadId>)
    requires t in threads && StepsLeft(p) < StepsLeft(threads[t])
    ensures AllStepsLeft(threads[t := p], order) <= AllStepsLeft(threads, order)
    ensures t in order ==> AllStepsLeft(threads[t := p], order) < AllStepsLeft(threads, order)
  {
    if order != [] {
      OneStepLess(threads, t, p, order[..|order| - 1]);
      assert order == order[..|order| - 1] + [order[|order| - 1]];
    }
  }

  lemma StepIsProgress(s: State, t: ThreadId)
    requires t in s.threads && Step(s, t, false).Some?
    ensures t in Step(s, t, false).value.threads
    ensures StepsLeft(Step(s, t, false).value.threads[t]) < StepsLeft(s.threads[t])
  {
  }

  lemma {:induction false} ListOf(ids: set<ThreadId>) returns (order: seq<ThreadId>)
    ensures forall t :: t in ids <==> t in order
    decreases |ids|
  {
    if ids == {} {
      order := [];
    } else {
      var t :| t in ids;
      order := ListOf(ids - {t});
      order := order + [t];
    }
  }

  ghost predicate AllReturned(s: State) {
    forall t | t in s.threads :: s.threads[t].Returned?
  }

  /** A step of a thread that can move: fewer steps are left, for the same threads. */
  lemma OneStepOn(s: State, schedule: seq<(ThreadId, bool)>, order: seq<ThreadId>) returns (t: ThreadId)
    requires Initial(s) && Run(s, schedule).Some? && !AllReturned(Run(s, schedule).value)
    requires forall u | u in Run(s, schedule).value.threads :: u in order
    ensures var now := Run(s, schedule).value; var next := Run(s, schedule + [(t, false)]);
            && next.Some? && next.value.threads.Keys == now.threads.Keys
            && AllStepsLeft(next.value.threads, order) < AllStepsLeft(now.threads, order)
  {
    var now := Run(s, schedule).value;
    NeverStuck(s, schedule);
    t :| t in now.threads && Step(now, t, false).Some?;
    RunOne(s, schedule, (t, false));
    StepIsProgress(now, t);
    StepMoves(now, t, false);
    OneStepLess(now.threads, t, Step(now, t, false).value.threads[t], order);
  }

  lemma {:induction false} CanReturn(s: State, schedule: seq<(ThreadId, bool)>, order: seq<ThreadId>)
      returns (more: seq<(ThreadId, bool)>)
    requires Initial(s) && Run(s, schedule).Some?
    requires forall t | t in Run(s, schedule).value.threads :: t in order
    ensures Run(s, schedule + more).Some? && AllReturned(Run(s, schedule + more).value)
    decreases AllStepsLeft(Run(s, schedule).value.threads, order)
  {
    if AllReturned(Run(s, schedule).value) {
      more := [];
      assert schedule + [] == schedule;
    } else {
      var t := OneStepOn(s, schedule, order);
      var rest := CanReturn(s, schedule + [(t, false)], order);
      more := [(t, false)] + rest;
      assert schedule + [(t, false)] + rest == schedule + more;
    }
  }

  /** From every reachable state some schedule makes all calls return, and then nothing is left behind. */
  lemma AllCanReturn(s: State, schedule: seq<(ThreadId, bool)>)
    requires Initial(s) && Run(s, schedule).Some?
    ensures exists more :: Completes(s, schedule + more)
  {
    var order := ListOf(Run(s, schedule).value.threads.Keys);
    var more := CanReturn(s, schedule, order);
    NothingLeftBehind(s, schedule + more);
    assert Completes(s, schedule + more);
  }

  ghost predicate Completes(s: State, schedule: seq<(ThreadId, bool)>) {
    && Run(s, schedule).Some? && AllReturned(Run(s, schedule).value)
    && Run(s, schedule).value.contexts == map[] && Run(s, schedule).value.lock == None
  }
}
