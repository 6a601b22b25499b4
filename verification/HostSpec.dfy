/**
 MockedHost of include/evmc/mocked_host.hpp as a transition function on values: one `Op` for
 each Host method that touches the state.
 */
module HostSpec {
  import opened Bytes
  import opened StorageStatus

  const MAX_RECORDED_ACCOUNT_ACCESSES := 200
  const MAX_RECORDED_CALLS := 100

  datatype AccessStatus = Cold | Warm

  datatype StorageValue = StorageValue(current: Word, original: Word, access: AccessStatus)
  const NEW_STORAGE_VALUE := StorageValue(ZERO_WORD, ZERO_WORD, Cold)

  datatype Account = Account(
    code: seq<byte>, codehash: Word, balance: Word,
    storage: map<Word, StorageValue>, transient: map<Word, Word>)
  const NEW_ACCOUNT := Account([], ZERO_WORD, ZERO_WORD, map[], map[])

  /** The fields of evmc_message that are recorded as they are; `code` is the caller's pointer. */
  datatype MessageFields = MessageFields(
    kind: nat, flags: nat, depth: int, gas: int, recipient: Address, sender: Address, value: Word,
    salt: Word, codeAddress: Address, code: nat, codeSize: nat)
  datatype Message = Message(fields: MessageFields, input: seq<byte>)
  datatype LogRecord = LogRecord(creator: Address, data: seq<byte>, topics: seq<Word>)

  /** input_data of a recorded call: a pointer to the characters of a copy as stored at a generation. */
  datatype InputRef = Unowned | Copy(generation: nat, index: nat)
  datatype RecordedCall = RecordedCall(fields: MessageFields, inputSize: nat, input: InputRef)

  /** m_recorded_calls_inputs: a vector that doubles, and moves its strings, when it grows past its capacity. */
  datatype InputVector = InputVector(items: seq<seq<byte>>, capacity: nat, generation: nat) {
    function Reserve(n: nat): InputVector {
      if n > capacity then InputVector(items, n, generation + 1) else this
    }

    function Append(item: seq<byte>): InputVector {
      if |items| < capacity then InputVector(items + [item], capacity, generation)
      else InputVector(items + [item], if capacity == 0 then 1 else 2 * capacity, generation + 1)
    }
  }

  datatype HostState = HostState(
    accounts: map<Address, Account>,
    accesses: seq<Address>,
    calls: seq<RecordedCall>,
    inputs: InputVector,
    selfdestructs: map<Address, seq<Address>>,
    blockhashes: seq<int>,
    logs: seq<LogRecord>)

  /** The Host methods; `Query` is account_exists, get_balance, get_code_size, get_code_hash and copy_code. */
  datatype Op =
    | Query(addr: Address)
    | GetStorage(addr: Address, key: Word)
    | SetStorage(addr: Address, key: Word, value: Word)
    | GetTransient(addr: Address, key: Word)
    | SetTransient(addr: Address, key: Word, value: Word)
    | AccessAccount(addr: Address)
    | AccessStorage(addr: Address, key: Word)
    | Selfdestruct(addr: Address, beneficiary: Address)
    | CallContract(message: Message)
    | GetBlockHash(number: int)
    | EmitLog(log: LogRecord)
    | ClearCalls  // the owner of the host clears the public recorded_calls

  /** Nothing but the storage of `addr` differs, and a new account is an empty one. */
  ghost predicate OnlyStorageOf(addr: Address, before: map<Address, Account>, after: map<Address, Account>) {
    && (forall b | b in before :: b in after && SameAccount(before[b], after[b]))
    && (forall b | b in before && b != addr :: after[b] == before[b])
    && (forall b | b in after && b !in before :: b == addr && IsEmpty(after[b]))
    && addr in after
  }

  predicate SameAccount(a: Account, a': Account) {
    a'.balance == a.balance && a'.code == a.code && a'.codehash == a.codehash
  }

  predicate IsEmpty(a: Account) {
    a.balance == Zeros(32) && a.code == [] && a.codehash == Zeros(32)
  }

  // ---- Reading the state ----

  function AccountOf(s: HostState, addr: Address): Account {
    if addr in s.accounts then s.accounts[addr] else NEW_ACCOUNT
  }

  /** The storage entry, the default one when account or key is missing. */
  function EntryOf(s: HostState, addr: Address, key: Word): StorageValue {
    var storage := AccountOf(s, addr).storage;
    if key in storage then storage[key] else NEW_STORAGE_VALUE
  }

  function TransientOf(s: HostState, addr: Address, key: Word): Word {
    var transient := AccountOf(s, addr).transient;
    if key in transient then transient[key] else ZERO_WORD
  }

  // ---- Steps ----

  function Record(s: HostState, addr: Address): HostState {
    if |s.accesses| < MAX_RECORDED_ACCOUNT_ACCESSES then s.(accesses := s.accesses + [addr]) else s
  }

  function PutEntry(s: HostState, addr: Address, key: Word, v: StorageValue): HostState {
    var account := AccountOf(s, addr);
    s.(accounts := s.accounts[addr := account.(storage := account.storage[key := v])])
  }

  function PutTransient(s: HostState, addr: Address, key: Word, v: Word): HostState {
    var account := AccountOf(s, addr);
    s.(accounts := s.accounts[addr := account.(transient := account.transient[key := v])])
  }

  function RecordCall(s: HostState, m: Message): HostState {
    var inputs := if s.calls == [] then s.inputs.Reserve(MAX_RECORDED_CALLS) else s.inputs;
    if |s.calls| >= MAX_RECORDED_CALLS then s.(inputs := inputs)
    else if m.input == [] then
      s.(inputs := inputs, calls := s.calls + [RecordedCall(m.fields, 0, Unowned)])
    else
      var inputs' := inputs.Append(m.input);
      var ref := Copy(inputs'.generation, |inputs.items|);
      s.(inputs := inputs', calls := s.calls + [RecordedCall(m.fields, |m.input|, ref)])
  }

  function BeneficiariesOf(s: HostState, addr: Address): seq<Address> {
    if addr in s.selfdestructs then s.selfdestructs[addr] else []
  }

  function Step(s: HostState, op: Op): HostState {
    match op
    case Query(a) => Record(s, a)
    case GetStorage(a, _) => Record(s, a)
    case SetStorage(a, k, v) => PutEntry(Record(s, a), a, k, EntryOf(s, a, k).(current := v))
    case GetTransient(a, _) => Record(s, a)
    case SetTransient(a, k, v) => PutTransient(Record(s, a), a, k, v)
    case AccessAccount(a) => Record(s, a)
    case AccessStorage(a, k) => PutEntry(s, a, k, EntryOf(s, a, k).(access := Warm))
    case Selfdestruct(a, b) =>
      var s' := Record(s, a);
      s'.(selfdestructs := s'.selfdestructs[a := BeneficiariesOf(s, a) + [b]])
    case CallContract(m) => RecordCall(Record(s, m.fields.recipient), m)
    case GetBlockHash(n) => s.(blockhashes := s.blockhashes + [n])
    case EmitLog(log) => s.(logs := s.logs + [log])
    case ClearCalls => s.(calls := [])
  }

  predicate IsPrecompile(addr: Address) {
    1 <= Value(addr) <= 9
  }

  /** What access_account answers. */
  function AccountAccess(s: HostState, addr: Address): AccessStatus {
    if IsPrecompile(addr) || addr in s.accesses then Warm else Cold
  }

  function RunOps(s: HostState, ops: seq<Op>): HostState {
    if ops == [] then s else Step(RunOps(s, ops[..|ops| - 1]), ops[|ops| - 1])
  }
}
