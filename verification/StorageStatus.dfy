/**
 The storage status returned by MockedHost::set_storage (EIP-2200, section "Specification")
 and the net gas it stands for.
 */
module StorageStatus {
  import opened Bytes

  /** evmc_storage_status. */
  datatype Status =
    | Assigned | Added | Deleted | Modified | DeletedAdded | ModifiedDeleted
    | DeletedRestored | AddedDeleted | ModifiedRestored

  /** The status as a function of the four checks named in the source's comment. */
  function FourChecks(dirty: bool, restored: bool, currentNonZero: bool, valueNonZero: bool): Status {
    match (dirty, restored, currentNonZero, valueNonZero)
    case (false, true, _, _) => Assigned
    case (false, false, false, _) => Added
    case (false, false, true, false) => Deleted
    case (false, false, true, true) => Modified
    case (true, false, false, true) => DeletedAdded
    case (true, false, true, false) => ModifiedDeleted
    case (true, true, false, _) => DeletedRestored
    case (true, true, true, false) => AddedDeleted
    case (true, true, true, true) => ModifiedRestored
    case (true, false, _, _) => Assigned
  }

  function StatusOf(original: Word, current: Word, value: Word): Status {
    FourChecks(original != current, original == value, current != ZERO_WORD, value != ZERO_WORD)
  }

  const NONE: bv4 := 0
  const REMOVE_CLEARS_SCHEDULE: bv4 := 1
  const ADD_CLEARS_SCHEDULE: bv4 := 2
  const RESTORED_BY_SET: bv4 := 4
  const RESTORED_BY_RESET: bv4 := 8

  /** The clauses of EIP-2200 as nested conditions, with clause flags for the dirty case. */
  method Classify(original: Word, current: Word, value: Word) returns (status: Status)
    ensures status == StatusOf(original, current, value)
  {
    if current == value {
      return Assigned;
    }
    if original == current {
      if original == ZERO_WORD {
        return Added;
      }
      status := Modified;
      if value == ZERO_WORD {
        status := Deleted;
      }
      return;
    }
    var triggered := NONE;
    if original != ZERO_WORD {
      if current == ZERO_WORD {
        assert value != ZERO_WORD;
        triggered := triggered | REMOVE_CLEARS_SCHEDULE;
      }
      if value == ZERO_WORD {
        assert current != ZERO_WORD;
        triggered := triggered | ADD_CLEARS_SCHEDULE;
      }
    }
    if original == value {
      if original == ZERO_WORD {
        triggered := triggered | RESTORED_BY_SET;
      } else {
        triggered := triggered | RESTORED_BY_RESET;
      }
    }
    if triggered == REMOVE_CLEARS_SCHEDULE {
      status := DeletedAdded;
    } else if triggered == ADD_CLEARS_SCHEDULE {
      status := ModifiedDeleted;
    } else if triggered == REMOVE_CLEARS_SCHEDULE | RESTORED_BY_RESET {
      status := DeletedRestored;
    } else if triggered == RESTORED_BY_SET {
      status := AddedDeleted;
    } else if triggered == RESTORED_BY_RESET {
      status := ModifiedRestored;
    } else if triggered == NONE {
      status := Assigned;
    } else {
      assert false;
    }
  }

  // ---- The documented transitions o -> c -> v ----

  /** The patterns of evmc_storage_status; X, Y and Z are distinct and not zero. */
  predicate Documented(s: Status, o: Word, c: Word, v: Word) {
    var zero := ZERO_WORD;
    match s
    case Added => o == zero && c == zero && v != zero
    case Deleted => o != zero && c == o && v == zero
    case Modified => o != zero && c == o && v != zero && v != o
    case DeletedAdded => o != zero && c == zero && v != zero && v != o
    case ModifiedDeleted => o != zero && c != zero && c != o && v == zero
    case DeletedRestored => o != zero && c == zero && v == o
    case AddedDeleted => o == zero && c != zero && v == zero
    case ModifiedRestored => o != zero && c != zero && c != o && v == o
    case Assigned => c == v || (c != zero && v != zero && c != v && o != c && o != v)
  }

  /** Each triple has exactly one documented status, and it is the one returned. */
  lemma ClassificationIsDocumented(s: Status, o: Word, c: Word, v: Word)
    ensures StatusOf(o, c, v) == s <==> Documented(s, o, c, v)
  {
  }

  // ---- Gas ----

  /** SLOAD_GAS, SSTORE_SET_GAS, SSTORE_RESET_GAS and SSTORE_CLEARS_SCHEDULE, left symbolic. */
  datatype Schedule = Schedule(sload: int, sset: int, reset: int, clears: int)

  /** Gas deducted for a status. */
  function Cost(g: Schedule, s: Status): int {
    match s
    case Added => g.sset
    case Deleted => g.reset
    case Modified => g.reset
    case _ => g.sload
  }

  /** Clear refunds granted (1) or withdrawn (-1). */
  function Clears(s: Status): int {
    match s
    case Deleted => 1
    case ModifiedDeleted => 1
    case DeletedAdded => -1
    case DeletedRestored => -1
    case _ => 0
  }

  /** The change of the refund counter for a status. */
  function Refund(g: Schedule, s: Status): int {
    g.clears * Clears(s) +
    match s
    case AddedDeleted => g.sset - g.sload
    case DeletedRestored => g.reset - g.sload
    case ModifiedRestored => g.reset - g.sload
    case _ => 0
  }

  /** Cost and refund of each status with the numbers of EIP-2200. */
  lemma Eip2200Numbers(s: Status)
    ensures var g := Schedule(800, 20000, 5000, 15000);
            (Cost(g, s), Refund(g, s)) ==
            match s
            case Assigned => (800, 0)
            case Added => (20000, 0)
            case Deleted => (5000, 15000)
            case Modified => (5000, 0)
            case DeletedAdded => (800, -15000)
            case ModifiedDeleted => (800, 15000)
            case DeletedRestored => (800, -10800)
            case AddedDeleted => (800, 19200)
            case ModifiedRestored => (800, 4200)
  {
  }

  /** 1 when a non-zero original is currently cleared. */
  function Cleared(original: Word, current: Word): int {
    if original != ZERO_WORD && current == ZERO_WORD then 1 else 0
  }

  /** What a slot has cost net of refunds, beyond SLOAD_GAS a write, to get from original to current. */
  function Potential(g: Schedule, original: Word, current: Word): int {
    if original == current then 0
    else (if original == ZERO_WORD then g.sset else g.reset) - g.sload - g.clears * Cleared(original, current)
  }

  /** One write moves the potential by exactly its net gas. */
  lemma NetGasStep(g: Schedule, original: Word, current: Word, value: Word)
    ensures var s := StatusOf(original, current, value);
            && Cost(g, s) - Refund(g, s) == g.sload + Potential(g, original, value) - Potential(g, original, current)
            && Clears(s) == Cleared(original, value) - Cleared(original, current)
  {
  }

  datatype Bill = Bill(current: Word, cost: int, refund: int, clears: int)

  /** The writes in order, with the running cost, refund counter and outstanding clear refunds. */
  function Pay(g: Schedule, original: Word, current: Word, writes: seq<Word>): Bill {
    if writes == [] then Bill(current, 0, 0, 0)
    else
      var n := |writes| - 1;
      var before := Pay(g, original, current, writes[..n]);
      var s := StatusOf(original, before.current, writes[n]);
      Bill(writes[n], before.cost + Cost(g, s), before.refund + Refund(g, s), before.clears + Clears(s))
  }

  /** Any number of writes to a slot costs as if only its first and last value mattered. */
  lemma {:induction false} NetGasTelescopes(g: Schedule, original: Word, current: Word, writes: seq<Word>)
    ensures var b := Pay(g, original, current, writes);
            && b.cost - b.refund ==
               |writes| * g.sload + Potential(g, original, b.current) - Potential(g, original, current)
            && b.clears == Cleared(original, b.current) - Cleared(original, current)
            && b.current == if writes == [] then current else writes[|writes| - 1]
  {
    if writes != [] {
      var n := |writes| - 1;
      var before := Pay(g, original, current, writes[..n]);
      NetGasTelescopes(g, original, current, writes[..n]);
      NetGasStep(g, original, before.current, writes[n]);
      PayOneMore(g, original, before, writes[n], n, Potential(g, original, current));
    }
  }

  lemma PayOneMore(g: Schedule, original: Word, before: Bill, value: Word, n: nat, start: int)
    requires before.cost - before.refund == n * g.sload + Potential(g, original, before.current) - start
    ensures var s := StatusOf(original, before.current, value);
            before.cost + Cost(g, s) - (before.refund + Refund(g, s)) ==
            (n + 1) * g.sload + Potential(g, original, value) - start
  {
    NetGasStep(g, original, before.current, value);
  }

  /** For a slot that starts clean, outstanding clear refunds are 1 exactly when it is now cleared. */
  lemma ClearRefundsOfCleanSlot(g: Schedule, original: Word, writes: seq<Word>)
    ensures var b := Pay(g, original, original, writes);
            && b.cost - b.refund == |writes| * g.sload + Potential(g, original, b.current)
            && b.clears == (if original != ZERO_WORD && b.current == ZERO_WORD then 1 else 0)
  {
    NetGasTelescopes(g, original, original, writes);
  }
}
