/**
 MockedHost over whole runs: its answers agree with the history of the calls made to it, and
 the net storage gas of an interleaved run depends only on the first and last values.
 */
module HostHistory {
  import opened Bytes
  import opened StorageStatus
  import opened HostSpec

  // ---- Storage ----

  /** The value most recently set for a slot. */
  function LastSet(ops: seq<Op>, addr: Address, key: Word): Option<Word> {
    if ops == [] then None
    else
      match ops[|ops| - 1]
      case SetStorage(a, k, v) => if a == addr && k == key then Some(v) else LastSet(ops[..|ops| - 1], addr, key)
      case _ => LastSet(ops[..|ops| - 1], addr, key)
  }

  function LastTransient(ops: seq<Op>, addr: Address, key: Word): Option<Word> {
    if ops == [] then None
    else
      match ops[|ops| - 1]
      case SetTransient(a, k, v) =>
        if a == addr && k == key then Some(v) else LastTransient(ops[..|ops| - 1], addr, key)
      case _ => LastTransient(ops[..|ops| - 1], addr, key)
  }

  function GetOr(o: Option<Word>, default: Word): Word {
    match o
    case None => default
    case Some(v) => v
  }

  lemma EntryAfter(s: HostState, op: Op, addr: Address, key: Word)
    ensures EntryOf(Step(s, op), addr, key) ==
            (var e := EntryOf(s, addr, key);
             match op
             case SetStorage(a, k, v) => if a == addr && k == key then e.(current := v) else e
             case AccessStorage(a, k) => if a == addr && k == key then e.(access := Warm) else e
             case _ => e)
  {
  }

  lemma TransientAfter(s: HostState, op: Op, addr: Address, key: Word)
    ensures TransientOf(Step(s, op), addr, key) ==
            (match op
             case SetTransient(a, k, v) => if a == addr && k == key then v else TransientOf(s, addr, key)
             case _ => TransientOf(s, addr, key))
  {
  }

  /**
   After any run get_storage answers the last value set, originals are as they were, and
   access_storage answers Cold exactly when the slot was cold and has not been accessed.
   */
  lemma {:induction false} StorageAgreesWithHistory(s: HostState, ops: seq<Op>, addr: Address, key: Word)
    ensures var before, after := EntryOf(s, addr, key), EntryOf(RunOps(s, ops), addr, key);
            && after.current == GetOr(LastSet(ops, addr, key), before.current)
            && after.original == before.original
            && (after.access == Cold <==> before.access == Cold && AccessStorage(addr, key) !in ops)
    ensures TransientOf(RunOps(s, ops), addr, key) == GetOr(LastTransient(ops, addr, key), TransientOf(s, addr, key))
  {
    if ops != [] {
      var front, last := ops[..|ops| - 1], ops[|ops| - 1];
      assert ops == front + [last];
      StorageAgreesWithHistory(s, front, addr, key);
      EntryAfter(RunOps(s, front), last, addr, key);
      TransientAfter(RunOps(s, front), last, addr, key);
    }
  }

  // ---- Accounts ----

  /** The only calls that bring an account into being. */
  predicate Creates(op: Op, addr: Address) {
    (op.SetStorage? || op.SetTransient? || op.AccessStorage?) && op.addr == addr
  }

  lemma AccountsAfter(s: HostState, op: Op, b: Address)
    ensures b in Step(s, op).accounts <==> b in s.accounts || Creates(op, b)
    ensures SameAccount(AccountOf(s, b), AccountOf(Step(s, op), b))
    ensures b !in s.accounts ==> IsEmpty(AccountOf(s, b))
  {
  }

  /**
   Over any run balance, code and code hash of every account stay as they were; accounts do not
   disappear, and a new one is empty and belongs to an address whose storage was written or accessed.
   */
  lemma {:induction false} AccountsAreKept(s: HostState, ops: seq<Op>, b: Address)
    ensures var s' := RunOps(s, ops);
            && (b in s'.accounts <==> b in s.accounts || exists i :: 0 <= i < |ops| && Creates(ops[i], b))
            && (b in s.accounts ==> SameAccount(s.accounts[b], s'.accounts[b]))
            && (b in s'.accounts && b !in s.accounts ==> IsEmpty(s'.accounts[b]))
  {
    if ops != [] {
      var n := |ops| - 1;
      AccountsAreKept(s, ops[..n], b);
      AccountsAfter(RunOps(s, ops[..n]), ops[n], b);
      assert forall i | 0 <= i < n :: ops[..n][i] == ops[i];
    }
  }

  // ---- Slots of a new host ----

  /** In a host without accounts the first access of a slot is cold, and the first non-zero write adds it. */
  lemma FreshSlots(s: HostState, a: Address, key: Word, value: Word)
    requires s.accounts == map[]
    ensures var e := EntryOf(s, a, key);
            && e.access == Cold && e.current == Zeros(32) && e.original == Zeros(32)
            && (value != Zeros(32) ==> StatusOf(e.original, e.current, value) == Added)
            && StatusOf(e.original, e.current, Zeros(32)) == Assigned
            && TransientOf(s, a, key) == Zeros(32)
  {
  }

  /** What a later call finds in a slot, from the history alone. */
  lemma FreshHostAnswers(s: HostState, ops: seq<Op>, a: Address, key: Word)
    requires s.accounts == map[]
    ensures var e := EntryOf(RunOps(s, ops), a, key);
            && (e.access == Cold <==> AccessStorage(a, key) !in ops)
            && e.current == GetOr(LastSet(ops, a, key), Zeros(32))
            && e.original == Zeros(32)
    ensures TransientOf(RunOps(s, ops), a, key) == GetOr(LastTransient(ops, a, key), Zeros(32))
    ensures s.accesses == [] ==> (AccountAccess(s, a) == Warm <==> 1 <= Value(a) <= 9)
  {
    FreshSlots(s, a, key, ZERO_WORD);
    StorageAgreesWithHistory(s, ops, a, key);
  }

  // ---- Block hashes and logs ----

  function Numbers(ops: seq<Op>): seq<int> {
    if ops == [] then []
    else Numbers(ops[..|ops| - 1]) + if ops[|ops| - 1].GetBlockHash? then [ops[|ops| - 1].number] else []
  }

  function Logs(ops: seq<Op>): seq<LogRecord> {
    if ops == [] then []
    else Logs(ops[..|ops| - 1]) + if ops[|ops| - 1].EmitLog? then [ops[|ops| - 1].log] else []
  }

  lemma LogsAfter(s: HostState, op: Op)
    ensures Step(s, op).blockhashes == s.blockhashes + if op.GetBlockHash? then [op.number] else []
    ensures Step(s, op).logs == s.logs + if op.EmitLog? then [op.log] else []
  {
  }

  /** The numbers asked for and the logs emitted are recorded completely and in order. */
  lemma {:induction false} LogsAreRecorded(s: HostState, ops: seq<Op>)
    ensures RunOps(s, ops).blockhashes == s.blockhashes + Numbers(ops)
    ensures RunOps(s, ops).logs == s.logs + Logs(ops)
  {
    if ops != [] {
      LogsAreRecorded(s, ops[..|ops| - 1]);
      LogsAfter(RunOps(s, ops[..|ops| - 1]), ops[|ops| - 1]);
    }
  }

  // ---- The access record ----

  /** The addresses a method records. */
  function Recorded(op: Op): seq<Address> {
    match op
    case AccessStorage(_, _) => []
    case GetBlockHash(_) => []
    case EmitLog(_) => []
    case ClearCalls => []
    case CallContract(m) => [m.fields.recipient]
    case Query(a) => [a]
    case GetStorage(a, _) => [a]
    case SetStorage(a, _, _) => [a]
    case GetTransient(a, _) => [a]
    case SetTransient(a, _, _) => [a]
    case AccessAccount(a) => [a]
    case Selfdestruct(a, _) => [a]
  }

  function AllRecorded(ops: seq<Op>): seq<Address> {
    if ops == [] then [] else AllRecorded(ops[..|ops| - 1]) + Recorded(ops[|ops| - 1])
  }

  function FirstOf(s: seq<Address>, n: nat): seq<Address> {
    if |s| <= n then s else s[..n]
  }

  lemma RecordAfter(s: HostState, op: Op)
    ensures Step(s, op).accesses ==
            if |s.accesses| < MAX_RECORDED_ACCOUNT_ACCESSES then s.accesses + Recorded(op) else s.accesses
  {
  }

  /** The record is the first min(200, n) recorded addresses. */
  lemma {:induction false} AccessRecordIsPrefix(s: HostState, ops: seq<Op>)
    requires s.accesses == []
    ensures RunOps(s, ops).accesses == FirstOf(AllRecorded(ops), 200)
  {
    if ops != [] {
      AccessRecordIsPrefix(s, ops[..|ops| - 1]);
      RecordAfter(RunOps(s, ops[..|ops| - 1]), ops[|ops| - 1]);
    }
  }

  /** access_account's documentation: Warm if the account was accessed before (or is a precompile). */
  function DocumentedAccess(ops: seq<Op>, addr: Address): AccessStatus {
    if IsPrecompile(addr) || addr in AllRecorded(ops) then Warm else Cold
  }

  /** Nothing that the cap dropped is missed. */
  predicate CapIsHarmless(recorded: seq<Address>) {
    forall i | MAX_RECORDED_ACCOUNT_ACCESSES <= i < |recorded| ::
      IsPrecompile(recorded[i]) || recorded[i] in recorded[..MAX_RECORDED_ACCOUNT_ACCESSES]
  }

  /** The documented answer is given for every address exactly when the cap drops no new address. */
  lemma DocumentedAccessIff(s: HostState, ops: seq<Op>)
    requires s.accesses == []
    ensures (forall addr: Address :: AccountAccess(RunOps(s, ops), addr) == DocumentedAccess(ops, addr))
            <==> CapIsHarmless(AllRecorded(ops))
  {
    AccessRecordIsPrefix(s, ops);
    var all := AllRecorded(ops);
    var kept := FirstOf(all, MAX_RECORDED_ACCOUNT_ACCESSES);
    if CapIsHarmless(all) {
      forall addr: Address ensures addr in all ==> addr in kept || IsPrecompile(addr) {
        if addr in all {
          var i :| 0 <= i < |all| && all[i] == addr;
          if i < MAX_RECORDED_ACCOUNT_ACCESSES && i < |kept| {
            assert kept[i] == addr;
          }
        }
      }
    } else {
      var i :| MAX_RECORDED_ACCOUNT_ACCESSES <= i < |all|
               && !(IsPrecompile(all[i]) || all[i] in all[..MAX_RECORDED_ACCOUNT_ACCESSES]);
      assert AccountAccess(RunOps(s, ops), all[i]) == Cold && DocumentedAccess(ops, all[i]) == Warm;
    }
  }

  /** In particular a run that records at most 200 addresses is answered as documented. */
  lemma ShortRunsAreDocumented(s: HostState, ops: seq<Op>, addr: Address)
    requires s.accesses == [] && |AllRecorded(ops)| <= MAX_RECORDED_ACCOUNT_ACCESSES
    ensures AccountAccess(RunOps(s, ops), addr) == DocumentedAccess(ops, addr)
  {
    DocumentedAccessIff(s, ops);
  }

  /** A run that breaks the documented answer: 200 accesses of one account, then one of another. */
  function CapBreaker(n: nat): seq<Op> {
    seq(n, _ => AccessAccount(Zeros(20))) + [AccessAccount(Zeros(18) + [1, 0])]
  }

  lemma {:induction false} RecordedRepeat(n: nat)
    ensures AllRecorded(seq(n, _ => AccessAccount(Zeros(20)))) == seq(n, _ => Zeros(20))
  {
    var ops := seq(n, _ => AccessAccount(Zeros(20)));
    if n > 0 {
      assert ops[..n - 1] == seq(n - 1, _ => AccessAccount(Zeros(20)));
      RecordedRepeat(n - 1);
    }
  }

  lemma DocumentedAccessFails(s: HostState)
    requires s.accesses == []
    ensures var addr: Address := Zeros(18) + [1, 0];
            && AccountAccess(RunOps(s, CapBreaker(200)), addr) == Cold
            && DocumentedAccess(CapBreaker(200), addr) == Warm
  {
    var addr: Address := Zeros(18) + [1, 0];
    var ops := CapBreaker(200);
    assert ops[..|ops| - 1] == seq(200, _ => AccessAccount(Zeros(20)));
    RecordedRepeat(200);
    AccessRecordIsPrefix(s, ops);
    assert RunOps(s, ops).accesses == seq(200, _ => Zeros(20));
    assert addr[18] == 1;
    ValueLeftPad(18, [1, 0]);
    assert [1, 0][..1] == [1] && Value([1]) == 1 && Value([1, 0]) == 256;
    assert AllRecorded(ops)[200] == addr;
  }

  // ---- Recorded calls ----

  function Messages(ops: seq<Op>): seq<Message> {
    if ops == [] then []
    else Messages(ops[..|ops| - 1]) + if ops[|ops| - 1].CallContract? then [ops[|ops| - 1].message] else []
  }

  /** The messages since the last clear. */
  function LastMessages(ops: seq<Op>): seq<Message> {
    if ops == [] then []
    else
      match ops[|ops| - 1]
      case ClearCalls => []
      case CallContract(m) => LastMessages(ops[..|ops| - 1]) + [m]
      case _ => LastMessages(ops[..|ops| - 1])
  }

  function FirstMessages(messages: seq<Message>): seq<Message> {
    if |messages| <= MAX_RECORDED_CALLS then messages else messages[..MAX_RECORDED_CALLS]
  }

  /** The messages whose input has to be copied. */
  function NonEmpty(messages: seq<Message>): nat {
    if messages == [] then 0
    else NonEmpty(messages[..|messages| - 1]) + if messages[|messages| - 1].input == [] then 0 else 1
  }

  /** The inputs copied before the last clear. */
  function CopiedBefore(ops: seq<Op>): nat {
    if ops == [] then 0
    else
      var front := ops[..|ops| - 1];
      CopiedBefore(front) + if ops[|ops| - 1].ClearCalls? then NonEmpty(FirstMessages(LastMessages(front))) else 0
  }

  /**
   The bytes found through a recorded call's input pointer, None for a dangling pointer.  A string of
   at most `local` characters is stored inside the string object and left behind when the vector
   moves; a longer one keeps its place.
   */
  function InputOf(local: nat, v: InputVector, call: RecordedCall): Option<seq<byte>> {
    match call.input
    case Unowned => if call.inputSize == 0 then Some([]) else None
    case Copy(generation, index) =>
      if index < |v.items| && (generation == v.generation || |v.items[index]| > local) then Some(v.items[index])
      else None
  }

  predicate IsRecordOf(local: nat, v: InputVector, call: RecordedCall, m: Message) {
    call.fields == m.fields && call.inputSize == |m.input| && InputOf(local, v, call) == Some(m.input)
  }

  /** All records have the fields of their messages and lead to their own input bytes. */
  ghost predicate AllGood(local: nat, s: HostState, messages: seq<Message>) {
    |s.calls| == |messages| && forall i | 0 <= i < |s.calls| :: IsRecordOf(local, s.inputs, s.calls[i], messages[i])
  }

  // Where the copies of one period between clears are; v is the vector at its start.

  function Reserved(v: InputVector): InputVector {
    v.Reserve(MAX_RECORDED_CALLS)
  }

  /** The copies that fit the vector from the first call on. */
  function Room(v: InputVector): int {
    Reserved(v).capacity - |v.items|
  }

  /** The pointer to the j-th copy; the copy that does not fit moves the vector. */
  function CopyRef(v: InputVector, j: nat): InputRef {
    Copy(Reserved(v).generation + (if j >= Room(v) then 1 else 0), |v.items| + j)
  }

  /** The vector v after k further copies. */
  predicate Holds(now: InputVector, v: InputVector, k: nat) {
    && |now.items| == |v.items| + k
    && now.capacity == (if k > Room(v) then 2 * Reserved(v).capacity else Reserved(v).capacity)
    && now.generation == Reserved(v).generation + (if k > Room(v) then 1 else 0)
  }

  /** The record of the n-th message, wherever its copy has moved since. */
  predicate IsRecord(now: InputVector, call: RecordedCall, v: InputVector, messages: seq<Message>, n: nat)
    requires n < |messages|
  {
    var m, j := messages[n], NonEmpty(messages[..n]);
    && call.fields == m.fields && call.inputSize == |m.input|
    && (m.input == [] ==> call.input == Unowned)
    && (m.input != [] ==> call.input == CopyRef(v, j)
                          && |v.items| + j < |now.items| && now.items[|v.items| + j] == m.input)
  }

  ghost predicate Records(s: HostState, v: InputVector, messages: seq<Message>) {
    && |s.calls| == |messages| <= MAX_RECORDED_CALLS
    && (if messages == [] then s.inputs == v else Holds(s.inputs, v, NonEmpty(messages)))
    && forall i | 0 <= i < |s.calls| :: IsRecord(s.inputs, s.calls[i], v, messages, i)
  }

  lemma {:induction false} NonEmptyBound(messages: seq<Message>)
    ensures NonEmpty(messages) <= |messages|
  {
    if messages != [] {
      NonEmptyBound(messages[..|messages| - 1]);
    }
  }

  /** One more copy. */
  lemma AppendHolds(now: InputVector, v: InputVector, k: nat, item: seq<byte>)
    requires Holds(now, v, k) && |v.items| <= v.capacity && k < MAX_RECORDED_CALLS
    ensures Holds(now.Append(item), v, k + 1)
    ensures Copy(now.Append(item).generation, |now.items|) == CopyRef(v, k)
  {
  }

  lemma RecordStays(now: InputVector, later: InputVector, call: RecordedCall, v: InputVector,
                    messages: seq<Message>, more: seq<Message>, n: nat)
    requires n < |messages| && IsRecord(now, call, v, messages, n) && now.items <= later.items
    ensures IsRecord(later, call, v, messages + more, n)
  {
    assert (messages + more)[..n] == messages[..n];
  }

  lemma NewRecord(s: HostState, v: InputVector, messages: seq<Message>, m: Message)
    requires Records(s, v, messages) && |messages| < MAX_RECORDED_CALLS && |v.items| <= v.capacity
    ensures var s' := RecordCall(s, m); var n := |s.calls|;
            && |s'.calls| == n + 1 && s'.calls[..n] == s.calls && s.inputs.items <= s'.inputs.items
            && Holds(s'.inputs, v, NonEmpty(messages + [m]))
            && IsRecord(s'.inputs, s'.calls[n], v, messages + [m], n)
  {
    assert (messages + [m])[..|messages|] == messages;
    NonEmptyBound(messages);
    var reserved := if s.calls == [] then Reserved(s.inputs) else s.inputs;
    assert Holds(reserved, v, NonEmpty(messages));
    AppendHolds(reserved, v, NonEmpty(messages), m.input);
  }

  lemma RecordOneMore(s: HostState, v: InputVector, messages: seq<Message>, m: Message)
    requires Records(s, v, messages) && |messages| < MAX_RECORDED_CALLS && |v.items| <= v.capacity
    ensures Records(RecordCall(s, m), v, messages + [m])
  {
    var s' := RecordCall(s, m);
    NewRecord(s, v, messages, m);
    forall i | 0 <= i < |s.calls| ensures IsRecord(s'.inputs, s'.calls[i], v, messages + [m], i) {
      assert s'.calls[i] == s'.calls[..|s.calls|][i];
      RecordStays(s.inputs, s'.inputs, s.calls[i], v, messages, [m], i);
    }
  }

  lemma OtherOpsKeepCalls(s: HostState, op: Op)
    requires !op.CallContract? && !op.ClearCalls?
    ensures Step(s, op).calls == s.calls && Step(s, op).inputs == s.inputs
  {
  }

  /** The vector of copies at the last clear. */
  function AtLastClear(s: HostState, ops: seq<Op>): InputVector {
    if ops == [] then s.inputs
    else if ops[|ops| - 1].ClearCalls? then RunOps(s, ops[..|ops| - 1]).inputs
    else AtLastClear(s, ops[..|ops| - 1])
  }

  lemma {:induction false} RunRecords(s: HostState, ops: seq<Op>)
    requires s.calls == [] && |s.inputs.items| <= s.inputs.capacity
    ensures Records(RunOps(s, ops), AtLastClear(s, ops), FirstMessages(LastMessages(ops)))
    ensures |AtLastClear(s, ops).items| <= AtLastClear(s, ops).capacity
  {
    if ops != [] {
      var front, last := ops[..|ops| - 1], ops[|ops| - 1];
      RunRecords(s, front);
      OneMoreOp(RunOps(s, front), AtLastClear(s, front), LastMessages(front), last);
    }
  }

  lemma OneMoreOp(s: HostState, v: InputVector, messages: seq<Message>, op: Op)
    requires Records(s, v, FirstMessages(messages)) && |v.items| <= v.capacity
    ensures |s.inputs.items| <= s.inputs.capacity
    ensures op.ClearCalls? ==> Records(Step(s, op), s.inputs, [])
    ensures op.CallContract? ==> Records(Step(s, op), v, FirstMessages(messages + [op.message]))
    ensures !op.ClearCalls? && !op.CallContract? ==> Records(Step(s, op), v, FirstMessages(messages))
  {
    NonEmptyBound(FirstMessages(messages));
    if op.CallContract? {
      if |messages| < MAX_RECORDED_CALLS {
        RecordOneMore(Record(s, op.message.fields.recipient), v, messages, op.message);
      } else {
        assert FirstMessages(messages + [op.message]) == FirstMessages(messages);
      }
    } else if !op.ClearCalls? {
      OtherOpsKeepCalls(s, op);
    }
  }

  lemma {:induction false} NonEmptyBefore(messages: seq<Message>, n: nat)
    requires n < |messages| && messages[n].input != []
    ensures NonEmpty(messages[..n]) < NonEmpty(messages)
  {
    if n < |messages| - 1 {
      var front := messages[..|messages| - 1];
      assert front[..n] == messages[..n];
      NonEmptyBefore(front, n);
    }
  }

  /** A record is good exactly when its copy did not move, or was moved without its characters moving. */
  predicate Survives(local: nat, room: int, messages: seq<Message>, n: nat)
    requires n < |messages|
  {
    messages[n].input == [] || NonEmpty(messages) <= room || NonEmpty(messages[..n]) >= room
    || |messages[n].input| > local
  }

  predicate AllSurvive(local: nat, room: int, messages: seq<Message>) {
    forall n | 0 <= n < |messages| :: Survives(local, room, messages, n)
  }

  lemma RecordIsGoodIff(local: nat, now: InputVector, call: RecordedCall, v: InputVector,
                        messages: seq<Message>, n: nat)
    requires n < |messages| && IsRecord(now, call, v, messages, n) && Holds(now, v, NonEmpty(messages))
    ensures IsRecordOf(local, now, call, messages[n]) <==> Survives(local, Room(v), messages, n)
  {
    if messages[n].input != [] {
      NonEmptyBefore(messages, n);
    }
  }

  lemma {:induction false} AllGoodIff(local: nat, s: HostState, ops: seq<Op>)
    requires s.calls == [] && |s.inputs.items| <= s.inputs.capacity
    ensures var messages := FirstMessages(LastMessages(ops));
            AllGood(local, RunOps(s, ops), messages) <==> AllSurvive(local, Room(AtLastClear(s, ops)), messages)
  {
    RunRecords(s, ops);
    var end, v, messages := RunOps(s, ops), AtLastClear(s, ops), FirstMessages(LastMessages(ops));
    forall n | 0 <= n < |messages|
      ensures IsRecordOf(local, end.inputs, end.calls[n], messages[n]) <==> Survives(local, Room(v), messages, n)
    {
      RecordIsGoodIff(local, end.inputs, end.calls[n], v, messages, n);
    }
  }

  // The capacity from the number of copies alone.

  /** The first of c, 2c, 4c, ... that is at least n. */
  function Doubled(c: nat, n: nat): nat
    requires c > 0
    decreases if n > c then n - c else 0
  {
    if n <= c then c else Doubled(2 * c, n)
  }

  lemma {:induction false} DoubledNext(c: nat, n: nat)
    requires c > 0
    ensures n <= Doubled(c, n)
    ensures Doubled(c, n + 1) == if n == Doubled(c, n) then 2 * n else Doubled(c, n)
    decreases if n > c then n - c else 0
  {
    if n > c {
      DoubledNext(2 * c, n);
    }
  }

  /** The vector of a host that made n copies in all. */
  predicate Grown(v: InputVector, n: nat) {
    |v.items| == n <= v.capacity && Reserved(v).capacity == Doubled(MAX_RECORDED_CALLS, n)
  }

  lemma FirstOfMore(messages: seq<Message>, m: Message)
    ensures NonEmpty(FirstMessages(messages + [m])) ==
            NonEmpty(FirstMessages(messages)) + if |messages| < MAX_RECORDED_CALLS && m.input != [] then 1 else 0
  {
    if |messages| < MAX_RECORDED_CALLS {
      assert (messages + [m])[..|messages|] == messages;
    } else {
      assert FirstMessages(messages + [m]) == FirstMessages(messages);
    }
  }

  /** The same with its bookkeeping: `before` copies at the last clear, and the messages since. */
  predicate GrownBy(s: HostState, before: nat, messages: seq<Message>) {
    && Grown(s.inputs, before + NonEmpty(FirstMessages(messages)))
    && (s.calls != [] ==> s.inputs.capacity >= MAX_RECORDED_CALLS)
    && |s.calls| == |FirstMessages(messages)|
  }

  lemma RecordCallGrows(s: HostState, n: nat, m: Message)
    requires Grown(s.inputs, n) && (s.calls != [] ==> s.inputs.capacity >= MAX_RECORDED_CALLS)
    ensures var copied := m.input != [] && |s.calls| < MAX_RECORDED_CALLS;
            Grown(RecordCall(s, m).inputs, if copied then n + 1 else n)
    ensures RecordCall(s, m).inputs.capacity >= MAX_RECORDED_CALLS
    ensures |RecordCall(s, m).calls| == if |s.calls| < MAX_RECORDED_CALLS then |s.calls| + 1 else |s.calls|
  {
    DoubledNext(MAX_RECORDED_CALLS, n);
  }

  lemma CallGrows(s: HostState, before: nat, messages: seq<Message>, m: Message)
    requires GrownBy(s, before, messages)
    ensures GrownBy(RecordCall(s, m), before, messages + [m])
  {
    RecordCallGrows(s, before + NonEmpty(FirstMessages(messages)), m);
    FirstOfMore(messages, m);
  }

  const NEW_INPUTS := InputVector([], 0, 0)

  lemma {:induction false} RunGrows(s: HostState, ops: seq<Op>)
    requires s.calls == [] && s.inputs == NEW_INPUTS
    ensures GrownBy(RunOps(s, ops), CopiedBefore(ops), LastMessages(ops))
    ensures Grown(AtLastClear(s, ops), CopiedBefore(ops))
  {
    if ops != [] {
      var front, last := ops[..|ops| - 1], ops[|ops| - 1];
      var before := RunOps(s, front);
      RunGrows(s, front);
      if last.CallContract? {
        var s' := Record(before, last.message.fields.recipient);
        CallGrows(s', CopiedBefore(front), LastMessages(front), last.message);
      } else if !last.ClearCalls? {
        OtherOpsKeepCalls(before, last);
      }
    }
  }

  /** The storage left at the last clear. */
  lemma {:induction false} RoomAtLastClear(s: HostState, ops: seq<Op>)
    requires s.calls == [] && s.inputs == NEW_INPUTS
    ensures Room(AtLastClear(s, ops)) == Doubled(MAX_RECORDED_CALLS, CopiedBefore(ops)) - CopiedBefore(ops)
  {
    RunGrows(s, ops);
  }

  /**
   For every run of a new host, clears included: all recorded inputs can be read exactly when each
   of them is empty or too long for a string object, or all copies since the last clear fit what was
   left of the storage, or it was itself copied after that storage was full.
   */
  lemma {:induction false} RecordedInputsAreGoodIff(local: nat, s: HostState, ops: seq<Op>)
    requires s.calls == [] && s.inputs == NEW_INPUTS
    ensures var messages := FirstMessages(LastMessages(ops));
            var room := Doubled(MAX_RECORDED_CALLS, CopiedBefore(ops)) - CopiedBefore(ops);
            AllGood(local, RunOps(s, ops), messages) <==> AllSurvive(local, room, messages)
  {
    RoomAtLastClear(s, ops);
    AllGoodIff(local, s, ops);
  }

  lemma {:induction false} NoClearKeepsVector(s: HostState, ops: seq<Op>)
    requires ClearCalls !in ops
    ensures AtLastClear(s, ops) == s.inputs && LastMessages(ops) == Messages(ops)
  {
    if ops != [] {
      assert ops == ops[..|ops| - 1] + [ops[|ops| - 1]];
      NoClearKeepsVector(s, ops[..|ops| - 1]);
    }
  }

  /** The record matches the first messages, and there is room for every copy still to come. */
  ghost predicate KeepsCalls(local: nat, s: HostState, messages: seq<Message>) {
    && |s.calls| == (if |messages| < 100 then |messages| else 100)
    && |s.inputs.items| <= |s.calls|
    && (s.calls != [] ==> s.inputs.capacity >= MAX_RECORDED_CALLS)
    && forall i | 0 <= i < |s.calls| :: IsRecordOf(local, s.inputs, s.calls[i], messages[i])
  }

  /** Without a clear each of the first 100 recorded calls still leads to its own input, however many follow. */
  lemma RecordedCallsKeepTheirInputs(local: nat, s: HostState, ops: seq<Op>)
    requires s.calls == [] && s.inputs.items == [] && ClearCalls !in ops
    ensures KeepsCalls(local, RunOps(s, ops), Messages(ops))
  {
    NoClearKeepsVector(s, ops);
    RunRecords(s, ops);
    AllGoodIff(local, s, ops);
    NonEmptyBound(FirstMessages(Messages(ops)));
  }

  function Calls(m: Message, n: nat): seq<Op> {
    seq(n, _ => CallContract(m))
  }

  /** A host that records n calls, is cleared, and records n more. */
  function ClearBreaker(m: Message, n: nat): seq<Op> {
    Calls(m, n) + [ClearCalls] + Calls(m, n)
  }

  lemma {:induction false} Repeated(ops: seq<Op>, m: Message, n: nat)
    ensures LastMessages(ops + Calls(m, n)) == LastMessages(ops) + seq(n, _ => m)
    ensures CopiedBefore(ops + Calls(m, n)) == CopiedBefore(ops)
  {
    var all := ops + Calls(m, n);
    if n == 0 {
      assert all == ops;
    } else {
      assert all[..|all| - 1] == ops + Calls(m, n - 1);
      Repeated(ops, m, n - 1);
    }
  }

  lemma {:induction false} NonEmptyRepeated(m: Message, n: nat)
    requires m.input != []
    ensures NonEmpty(seq(n, _ => m)) == n
  {
    if n > 0 {
      assert seq(n, _ => m)[..n - 1] == seq(n - 1, _ => m);
      NonEmptyRepeated(m, n - 1);
    }
  }

  lemma ClearCounts(ops: seq<Op>)
    ensures LastMessages(ops + [ClearCalls]) == []
    ensures CopiedBefore(ops + [ClearCalls]) == CopiedBefore(ops) + NonEmpty(FirstMessages(LastMessages(ops)))
  {
    assert (ops + [ClearCalls])[..|ops|] == ops;
  }

  lemma CallsCount(m: Message, n: nat)
    ensures LastMessages(Calls(m, n)) == seq(n, _ => m) && CopiedBefore(Calls(m, n)) == 0
  {
    Repeated([], m, n);
    assert [] + Calls(m, n) == Calls(m, n);
    assert [] + seq(n, _ => m) == seq(n, _ => m);
  }

  lemma ClearBreakerCounts(m: Message, n: nat)
    requires m.input != [] && n <= MAX_RECORDED_CALLS
    ensures LastMessages(ClearBreaker(m, n)) == seq(n, _ => m) && CopiedBefore(ClearBreaker(m, n)) == n
  {
    CallsCount(m, n);
    NonEmptyRepeated(m, n);
    ClearCounts(Calls(m, n));
    Repeated(Calls(m, n) + [ClearCalls], m, n);
    assert [] + seq(n, _ => m) == seq(n, _ => m);
  }

  lemma FirstDoesNotSurvive(local: nat, room: int, messages: seq<Message>)
    requires messages != [] && 0 < |messages[0].input| <= local && 0 < room < NonEmpty(messages)
    ensures !AllSurvive(local, room, messages)
  {
    assert messages[..0] == [] && !Survives(local, room, messages, 0);
  }

  lemma BreakerDoesNotSurvive(local: nat, m: Message, n: nat)
    requires 0 < |m.input| <= local && 50 < n < MAX_RECORDED_CALLS
    ensures var ops := ClearBreaker(m, n); var messages := LastMessages(ops);
            && FirstMessages(messages) == messages
            && !AllSurvive(local, Doubled(MAX_RECORDED_CALLS, CopiedBefore(ops)) - CopiedBefore(ops), messages)
  {
    ClearBreakerCounts(m, n);
    NonEmptyRepeated(m, n);
    FirstDoesNotSurvive(local, MAX_RECORDED_CALLS - n, seq(n, _ => m));
  }

  lemma {:induction false} DoesNotSurviveIsBad(local: nat, s: HostState, ops: seq<Op>, messages: seq<Message>)
    requires s.calls == [] && s.inputs == NEW_INPUTS && messages == LastMessages(ops) == FirstMessages(messages)
    requires !AllSurvive(local, Doubled(MAX_RECORDED_CALLS, CopiedBefore(ops)) - CopiedBefore(ops), messages)
    ensures !AllGood(local, RunOps(s, ops), messages)
  {
    RecordedInputsAreGoodIff(local, s, ops);
  }

  /** After the clear the first records dangle, when their inputs are short enough for a string object. */
  lemma {:induction false} RecordedInputsGoBad(local: nat, s: HostState, m: Message, n: nat)
    requires s.calls == [] && s.inputs == NEW_INPUTS && 0 < |m.input| <= local && 50 < n < MAX_RECORDED_CALLS
    ensures !AllGood(local, RunOps(s, ClearBreaker(m, n)), LastMessages(ClearBreaker(m, n)))
  {
    BreakerDoesNotSurvive(local, m, n);
    DoesNotSurviveIsBad(local, s, ClearBreaker(m, n), LastMessages(ClearBreaker(m, n)));
  }

  // ---- Selfdestruct records ----

  function Beneficiaries(ops: seq<Op>, addr: Address): seq<Address> {
    if ops == [] then []
    else
      Beneficiaries(ops[..|ops| - 1], addr) +
      match ops[|ops| - 1]
      case Selfdestruct(a, b) => if a == addr then [b] else []
      case _ => []
  }

  /** selfdestruct answers true exactly for the first selfdestruct of an account. */
  lemma {:induction false} SelfdestructsAreRecorded(s: HostState, ops: seq<Op>, addr: Address)
    ensures BeneficiariesOf(RunOps(s, ops), addr) == BeneficiariesOf(s, addr) + Beneficiaries(ops, addr)
    ensures BeneficiariesOf(RunOps(s, ops), addr) == [] <==>
            BeneficiariesOf(s, addr) == [] && forall op | op in ops :: !(op.Selfdestruct? && op.addr == addr)
  {
    if ops != [] {
      var front, last := ops[..|ops| - 1], ops[|ops| - 1];
      assert ops == front + [last];
      SelfdestructsAreRecorded(s, front, addr);
      SelfdestructAfter(RunOps(s, front), last, addr);
    }
  }

  lemma SelfdestructAfter(s: HostState, op: Op, addr: Address)
    ensures BeneficiariesOf(Step(s, op), addr) ==
            BeneficiariesOf(s, addr) + if op.Selfdestruct? && op.addr == addr then [op.beneficiary] else []
  {
  }

  // ---- Net gas of interleaved writes ----

  datatype Slot = Slot(addr: Address, key: Word)

  /** Cost minus refund of one method call. */
  function NetOf(g: Schedule, s: HostState, op: Op): int {
    match op
    case SetStorage(a, k, v) =>
      var e := EntryOf(s, a, k);
      var status := StatusOf(e.original, e.current, v);
      Cost(g, status) - Refund(g, status)
    case _ => 0
  }

  function NetGas(g: Schedule, s: HostState, ops: seq<Op>): int {
    if ops == [] then 0
    else NetGas(g, s, ops[..|ops| - 1]) + NetOf(g, RunOps(s, ops[..|ops| - 1]), ops[|ops| - 1])
  }

  /** Clear refunds granted or withdrawn by one method call. */
  function ClearsOf(s: HostState, op: Op): int {
    match op
    case SetStorage(a, k, v) =>
      var e := EntryOf(s, a, k);
      Clears(StatusOf(e.original, e.current, v))
    case _ => 0
  }

  function AllClears(s: HostState, ops: seq<Op>): int {
    if ops == [] then 0 else AllClears(s, ops[..|ops| - 1]) + ClearsOf(RunOps(s, ops[..|ops| - 1]), ops[|ops| - 1])
  }

  function WriteCount(ops: seq<Op>): nat {
    if ops == [] then 0 else WriteCount(ops[..|ops| - 1]) + if ops[|ops| - 1].SetStorage? then 1 else 0
  }

  /** A value of each slot's original and current word, added up over the slots. */
  function Total(f: (Word, Word) -> int, s: HostState, slots: seq<Slot>): int {
    if slots == [] then 0 else Total(f, s, slots[..|slots| - 1]) + Of(f, s, slots[|slots| - 1])
  }

  function Of(f: (Word, Word) -> int, s: HostState, slot: Slot): int {
    var e := EntryOf(s, slot.addr, slot.key);
    f(e.original, e.current)
  }

  function Potentials(g: Schedule): (Word, Word) -> int {
    (original: Word, current: Word) => Potential(g, original, current)
  }

  ghost predicate Distinct(slots: seq<Slot>) {
    forall i, j | 0 <= i < j < |slots| :: slots[i] != slots[j]
  }

  /** Every slot written is listed. */
  ghost predicate Covers(slots: seq<Slot>, ops: seq<Op>) {
    forall i | 0 <= i < |ops| && ops[i].SetStorage? :: Slot(ops[i].addr, ops[i].key) in slots
  }

  /** Only the value of the written slot changes. */
  lemma {:induction false} TotalAfter(f: (Word, Word) -> int, s: HostState, op: Op, slots: seq<Slot>)
    requires Distinct(slots)
    ensures Total(f, Step(s, op), slots) - Total(f, s, slots) ==
            if op.SetStorage? && Slot(op.addr, op.key) in slots
            then Of(f, Step(s, op), Slot(op.addr, op.key)) - Of(f, s, Slot(op.addr, op.key))
            else 0
  {
    if slots != [] {
      var front, last := slots[..|slots| - 1], slots[|slots| - 1];
      assert slots == front + [last];
      TotalAfter(f, s, op, front);
      EntryAfter(s, op, last.addr, last.key);
    }
  }

  lemma NetOfIsPotential(g: Schedule, s: HostState, op: Op)
    requires op.SetStorage?
    ensures var slot := Slot(op.addr, op.key);
            && NetOf(g, s, op) == g.sload + Of(Potentials(g), Step(s, op), slot) - Of(Potentials(g), s, slot)
            && ClearsOf(s, op) == Of(Cleared, Step(s, op), slot) - Of(Cleared, s, slot)
  {
    var e := EntryOf(s, op.addr, op.key);
    EntryAfter(s, op, op.addr, op.key);
    NetGasStep(g, e.original, e.current, op.value);
  }

  lemma OneMoreWrite(n: nat, g: Schedule)
    ensures (n + 1) * g.sload == n * g.sload + g.sload
  {
  }

  /**
   However the writes to any number of slots are interleaved with each other and with other
   methods, their net gas is SLOAD_GAS a write plus the change of the slots' potentials.
   */
  lemma {:induction false} InterleavedGasTelescopes(g: Schedule, s: HostState, ops: seq<Op>, slots: seq<Slot>)
    requires Distinct(slots) && Covers(slots, ops)
    ensures NetGas(g, s, ops) ==
            WriteCount(ops) * g.sload + Total(Potentials(g), RunOps(s, ops), slots) - Total(Potentials(g), s, slots)
  {
    if ops != [] {
      var front, last := ops[..|ops| - 1], ops[|ops| - 1];
      var before := RunOps(s, front);
      InterleavedGasTelescopes(g, s, front, slots);
      TotalAfter(Potentials(g), before, last, slots);
      if last.SetStorage? {
        NetOfIsPotential(g, before, last);
        OneMoreWrite(WriteCount(front), g);
      }
    }
  }

  /** In the same runs the outstanding clear refunds are the change in the number of cleared slots. */
  lemma {:induction false} InterleavedClearsTelescope(s: HostState, ops: seq<Op>, slots: seq<Slot>)
    requires Distinct(slots) && Covers(slots, ops)
    ensures AllClears(s, ops) == Total(Cleared, RunOps(s, ops), slots) - Total(Cleared, s, slots)
  {
    if ops != [] {
      var front, last := ops[..|ops| - 1], ops[|ops| - 1];
      var before := RunOps(s, front);
      InterleavedClearsTelescope(s, front, slots);
      TotalAfter(Cleared, before, last, slots);
      if last.SetStorage? {
        NetOfIsPotential(Schedule(0, 0, 0, 0), before, last);
      }
    }
  }

  lemma {:induction false} CleanTotal(s: HostState, slots: seq<Slot>)
    ensures 0 <= Total(Cleared, s, slots) <= |slots|
    ensures (forall i | 0 <= i < |slots| :: IsClean(s, slots[i])) ==> Total(Cleared, s, slots) == 0
  {
    if slots != [] {
      CleanTotal(s, slots[..|slots| - 1]);
      assert IsClean(s, slots[|slots| - 1]) ==> Of(Cleared, s, slots[|slots| - 1]) == 0;
    }
  }

  predicate IsClean(s: HostState, slot: Slot) {
    var e := EntryOf(s, slot.addr, slot.key);
    e.original == e.current
  }

  /** Writes that start on clean slots never leave more clear refunds withdrawn than granted. */
  lemma ClearsNeverNegative(s: HostState, ops: seq<Op>, slots: seq<Slot>)
    requires Distinct(slots) && Covers(slots, ops) && forall i | 0 <= i < |slots| :: IsClean(s, slots[i])
    ensures 0 <= AllClears(s, ops) == Total(Cleared, RunOps(s, ops), slots) <= |slots|
  {
    InterleavedClearsTelescope(s, ops, slots);
    CleanTotal(s, slots);
    CleanTotal(RunOps(s, ops), slots);
  }
}
