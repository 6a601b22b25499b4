/**
 MockedHost in the source's form: a class whose methods update the accounts and the records
 in place, each proved to make the corresponding `HostSpec.Step`.
 */
module MockedHost {
  import opened Bytes
  import opened StorageStatus
  import opened HostSpec
  import Ownership
  import WordOrder

  const PRECOMPILE_1: Address := Zeros(19) + [1]
  const PRECOMPILE_9: Address := Zeros(19) + [9]

  lemma PrecompileRange(addr: Address)
    ensures WordOrder.AddressAtLeast(addr, PRECOMPILE_1) && WordOrder.AddressAtMost(addr, PRECOMPILE_9)
            <==> IsPrecompile(addr)
  {
    WordOrder.AddressOperators(addr, PRECOMPILE_1);
    WordOrder.AddressOperators(addr, PRECOMPILE_9);
    ValueLeftPad(19, [1]);
    ValueLeftPad(19, [9]);
    assert Value([1]) == 1 && Value([9]) == 9;
  }

  class Host {
    var accounts: map<Address, Account>
    var recordedBlockhashes: seq<int>
    var recordedAccountAccesses: seq<Address>
    var recordedCalls: seq<RecordedCall>
    var recordedLogs: seq<LogRecord>
    var recordedSelfdestructs: map<Address, seq<Address>>
    var inputs: InputVector
    var blockHash: Word
    var callResult: Ownership.Raw

    ghost function State(): HostState
      reads this
    {
      HostState(accounts, recordedAccountAccesses, recordedCalls, inputs, recordedSelfdestructs,
                recordedBlockhashes, recordedLogs)
    }

    constructor ()
      ensures State() == HostState(map[], [], [], InputVector([], 0, 0), map[], [], [])
      ensures blockHash == ZERO_WORD && callResult == Ownership.Raw(0, false)
    {
      accounts, recordedSelfdestructs := map[], map[];
      recordedBlockhashes, recordedAccountAccesses, recordedCalls, recordedLogs := [], [], [], [];
      inputs, blockHash, callResult := InputVector([], 0, 0), ZERO_WORD, Ownership.Raw(0, false);
    }

    method RecordAccountAccess(addr: Address)
      modifies this`recordedAccountAccesses
      ensures State() == Record(old(State()), addr)
    {
      if |recordedAccountAccesses| < MAX_RECORDED_ACCOUNT_ACCESSES {
        recordedAccountAccesses := recordedAccountAccesses + [addr];
      }
    }

    method AccountExists(addr: Address) returns (exists_: bool)
      modifies this`recordedAccountAccesses
      ensures State() == Step(old(State()), Query(addr)) && exists_ == (addr in old(accounts))
    {
      RecordAccountAccess(addr);
      exists_ := addr in accounts;
    }

    method GetBalance(addr: Address) returns (balance: Word)
      modifies this`recordedAccountAccesses
      ensures State() == Step(old(State()), Query(addr)) && balance == AccountOf(old(State()), addr).balance
      ensures balance == if addr in accounts then accounts[addr].balance else Zeros(32)
    {
      RecordAccountAccess(addr);
      balance := if addr !in accounts then ZERO_WORD else accounts[addr].balance;
    }

    /** Copies code from an offset into a buffer; bytes past the end of the code are not touched. */
    method CopyCode(addr: Address, offset: nat, buffer: array<byte>) returns (n: nat)
      modifies this`recordedAccountAccesses, buffer
      ensures State() == Step(old(State()), Query(addr))
      ensures var code := AccountOf(old(State()), addr).code;
              && n == (if offset >= |code| then 0
                       else if buffer.Length < |code| - offset then buffer.Length else |code| - offset)
              && (offset <= |code| ==> buffer[..n] == code[offset..offset + n])
      ensures addr in accounts && offset <= |accounts[addr].code| ==>
                offset + n <= |accounts[addr].code| && buffer[..n] == accounts[addr].code[offset..offset + n]
      ensures addr !in accounts ==> n == 0
      ensures buffer[n..] == old(buffer[n..])
    {
      RecordAccountAccess(addr);
      if addr !in accounts {
        return 0;
      }
      var code := accounts[addr].code;
      if offset >= |code| {
        return 0;
      }
      n := if buffer.Length < |code| - offset then buffer.Length else |code| - offset;
      forall i | 0 <= i < n {
        buffer[i] := code[offset + i];
      }
    }

    method GetStorage(addr: Address, key: Word) returns (value: Word)
      modifies this`recordedAccountAccesses
      ensures State() == Step(old(State()), Op.GetStorage(addr, key))
      ensures value == EntryOf(old(State()), addr, key).current
      ensures value == if addr in accounts && key in accounts[addr].storage
                       then accounts[addr].storage[key].current else Zeros(32)
    {
      RecordAccountAccess(addr);
      if addr !in accounts {
        return ZERO_WORD;
      }
      var storage := accounts[addr].storage;
      value := if key in storage then storage[key].current else ZERO_WORD;
    }

    method SetStorage(addr: Address, key: Word, value: Word) returns (status: Status)
      modifies this`recordedAccountAccesses, this`accounts
      ensures State() == Step(old(State()), Op.SetStorage(addr, key, value))
      ensures var e := EntryOf(old(State()), addr, key); status == StatusOf(e.original, e.current, value)
      ensures OnlyStorageOf(addr, old(accounts), accounts)
    {
      RecordAccountAccess(addr);
      var account := if addr in accounts then accounts[addr] else NEW_ACCOUNT;
      var s := if key in account.storage then account.storage[key] else NEW_STORAGE_VALUE;
      status := Classify(s.original, s.current, value);
      s := s.(current := value);
      accounts := accounts[addr := account.(storage := account.storage[key := s])];
    }

    method Selfdestruct(addr: Address, beneficiary: Address) returns (first: bool)
      modifies this`recordedAccountAccesses, this`recordedSelfdestructs
      ensures State() == Step(old(State()), Op.Selfdestruct(addr, beneficiary))
      ensures first <==> BeneficiariesOf(old(State()), addr) == []
    {
      RecordAccountAccess(addr);
      var beneficiaries := if addr in recordedSelfdestructs then recordedSelfdestructs[addr] else [];
      beneficiaries := beneficiaries + [beneficiary];
      recordedSelfdestructs := recordedSelfdestructs[addr := beneficiaries];
      first := |beneficiaries| == 1;
    }

    /** Records the call and wraps a copy of call_result, its release function included. */
    method Call(msg: Message) returns (result: Ownership.Result)
      modifies this`recordedAccountAccesses, this`recordedCalls, this`inputs
      ensures State() == Step(old(State()), CallContract(msg))
      ensures fresh(result) && result.raw == callResult
    {
      RecordAccountAccess(msg.fields.recipient);
      if recordedCalls == [] {
        inputs := inputs.Reserve(MAX_RECORDED_CALLS);
      }
      if |recordedCalls| < MAX_RECORDED_CALLS {
        var callMsg := RecordedCall(msg.fields, |msg.input|, Unowned);
        if callMsg.inputSize > 0 {
          inputs := inputs.Append(msg.input);
          callMsg := callMsg.(input := Copy(inputs.generation, |inputs.items| - 1));
        }
        recordedCalls := recordedCalls + [callMsg];
      }
      result := new Ownership.Result.FromRaw(callResult);
    }

    /** recorded_calls.clear() by the owner of the host; the copies of the inputs are private and stay. */
    method ClearRecordedCalls()
      modifies this`recordedCalls
      ensures State() == Step(old(State()), ClearCalls)
    {
      recordedCalls := [];
    }

    method GetBlockHash(number: int) returns (hash: Word)
      modifies this`recordedBlockhashes
      ensures State() == Step(old(State()), Op.GetBlockHash(number)) && hash == blockHash
    {
      recordedBlockhashes := recordedBlockhashes + [number];
      hash := blockHash;
    }

    method EmitLog(addr: Address, data: seq<byte>, topics: seq<Word>)
      modifies this`recordedLogs
      ensures State() == Step(old(State()), Op.EmitLog(LogRecord(addr, data, topics)))
    {
      recordedLogs := recordedLogs + [LogRecord(addr, data, topics)];
    }

    method AccessAccount(addr: Address) returns (status: AccessStatus)
      modifies this`recordedAccountAccesses
      ensures State() == Step(old(State()), Op.AccessAccount(addr))
      ensures status == AccountAccess(old(State()), addr)
    {
      var alreadyAccessed := addr in recordedAccountAccesses;
      RecordAccountAccess(addr);
      PrecompileRange(addr);
      if WordOrder.AddressAtLeast(addr, PRECOMPILE_1) && WordOrder.AddressAtMost(addr, PRECOMPILE_9) {
        return Warm;
      }
      status := if alreadyAccessed then Warm else Cold;
    }

    method AccessStorage(addr: Address, key: Word) returns (status: AccessStatus)
      modifies this`accounts
      ensures State() == Step(old(State()), Op.AccessStorage(addr, key))
      ensures status == EntryOf(old(State()), addr, key).access
      ensures OnlyStorageOf(addr, old(accounts), accounts)
    {
      var account := if addr in accounts then accounts[addr] else NEW_ACCOUNT;
      var value := if key in account.storage then account.storage[key] else NEW_STORAGE_VALUE;
      status := value.access;
      value := value.(access := Warm);
      accounts := accounts[addr := account.(storage := account.storage[key := value])];
    }

    method GetTransientStorage(addr: Address, key: Word) returns (value: Word)
      modifies this`recordedAccountAccesses
      ensures State() == Step(old(State()), GetTransient(addr, key))
      ensures value == TransientOf(old(State()), addr, key)
      ensures value == if addr in accounts && key in accounts[addr].transient
                       then accounts[addr].transient[key] else Zeros(32)
    {
      RecordAccountAccess(addr);
      if addr !in accounts {
        return ZERO_WORD;
      }
      var transient := accounts[addr].transient;
      value := if key in transient then transient[key] else ZERO_WORD;
    }

    method SetTransientStorage(addr: Address, key: Word, value: Word)
      modifies this`recordedAccountAccesses, this`accounts
      ensures State() == Step(old(State()), SetTransient(addr, key, value))
      ensures OnlyStorageOf(addr, old(accounts), accounts)
    {
      RecordAccountAccess(addr);
      var account := if addr in accounts then accounts[addr] else NEW_ACCOUNT;
      accounts := accounts[addr := account.(transient := account.transient[key := value])];
    }
  }
}
