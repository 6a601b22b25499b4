# Verified models of EVMC

EVMC is the interface between Ethereum clients and EVM implementations. This project models the
parts of the repository that compute something and proves what they promise. Nothing here runs the
C, C++ or Go code; everything is checked by `dafny verify dfyconfig.toml`.

| part of the repository | files here |
|---|---|
| the example interpreter, `examples/example_vm/example_vm.cpp` | `VmSpec` (transition function), `ExampleVm` (stack, memory and loop as they are), `IntegerMachine` and `Simulation`, `GasLaws`, `StackCheck`, `InstructionLaws`, `MemoryHistory` |
| the mocked host, `include/evmc/mocked_host.hpp` | `StorageStatus`, `HostSpec`, `MockedHost` (the class), `HostHistory`, `VmOnHost` (the example interpreter running on it) |
| comparison, hashing and ownership in `include/evmc/evmc.hpp` | `WordOrder`, `WordHash`, `Ownership` |
| the hex codec, `include/evmc/hex.hpp` and `filter_iterator.hpp` | `Hex` |
| the loader, `lib/loader/loader.c` | `CString`, `LoaderSpec`, `Loader` |
| the Go context registry, `bindings/go/evmc/evmc.go` | `HostRegistry` |

`Bytes` holds bytes, 32-byte words, addresses and their big-endian values.

Code that updates state is a class or a method with loops, proved equal to a function on values
(`VmSpec.Run`, `HostSpec.Step`, `LoaderSpec.Configure`, `Hex.Meaning`); the laws are lemmas about
those functions. The interpreter has a second reference for words, stack and addresses, a machine on
natural numbers; its memory and its CALL regions are those of `VmSpec`, specified by `MemoryHistory` and, in plain
numbers, by `InstructionLaws`.

## Side conditions and parameters

* The host of the interpreter is a parameter: three functions that answer from the whole history of
  earlier requests. `malloc` and the Go scheduler are parameters too. A DLL is a map from symbol to
  create function and the file system a map from path to DLL; a VM's `set_option` may depend on all
  options offered to it so far.
* Where the interpreter would leave its C++ arrays its run ends in a `Fault` with a reason:
  `StackFault`, `CodeOverrun` (a PUSH immediate past the end of the code) or `RegionWrap` (the
  32-bit end of a memory region wraps to at most 1024). No input is excluded; `Execute` alone
  requires that the run does not fault, and `InstructionLaws.RunFaultsIff` says exactly which runs do. CALL is given a `StackFault` before its regions are looked
  at, and a null pointer for one region ends it with EVMC_FAILURE before a wrapped one is used.
* Gas is an unbounded integer; the gas laws are stated for `gas >= 0`.
* C shifts are multiplications by powers of 2 and an OR of disjoint lanes is a sum; casts to 32 bits
  and the counters that wrap are reduced modulo 2^32 or 2^64 explicitly. `size_t` has 64 bits in
  `WordHash`.

## Where the code and its documentation differ

The models follow the code, and the lemmas named here say exactly when the documented behaviour holds.

* `access_account` is documented to answer Warm for every account accessed before; only the first 200
  recorded accesses are remembered (`HostHistory.DocumentedAccessIff`, with a failing run in
  `HostHistory.DocumentedAccessFails`).
* `from_hex<T>` strips one `0x` and its decoder accepts another, which then shifts the result by one
  byte instead of padding it on the left (`Hex.FixedKeepsValueIff`, `Hex.DoubledPrefix`).
* `evmc_load` looks up the documented symbol except for a path of exactly 4096 characters without
  '/', without a leading "lib" and not starting with '.' (`LoaderSpec.DocumentedSymbolIff`): its name
  is dropped, and a library with only the documented symbol is not loaded
  (`LoaderSpec.DocumentedSymbolIsMissed`).
* The error text for long configurations speaks of a maximum of 4096 characters, which is kept for all
  configurations but those of exactly 4096 (`LoaderSpec.ConfigurationTooLongIff`): one of them is
  rejected and accepted without its last character (`LoaderSpec.ConfigurationAtLimit`).
* A comment in `MockedHost::call` says the copies of the inputs do not move. They do not unless the
  public `recorded_calls` is cleared, which keeps the old copies; `HostHistory.RecordedInputsAreGoodIff`
  gives the exact condition from the inputs recorded before and after the last clear, and
  `HostHistory.RecordedInputsGoBad` runs in which records dangle.
* `MockedHost::call` wraps the same `call_result` each time, so with a release function set each call
  releases it again (`Ownership.MockedCallIsLinearIff`).

## Model

| member | source | states |
|---|---|---|
| ExampleVm.Stack.Pop | examples/example_vm/example_vm.cpp:81 | takes the top item off and returns it |
| ExampleVm.Stack.Push | examples/example_vm/example_vm.cpp:84 | appends an item to the contents of the 1024-slot array |
| ExampleVm.VmMemory.ExpandRegion | examples/example_vm/example_vm.cpp:98-108 | size grows to the region's end when it fits, contents stay, null exactly when the 32-bit end exceeds 1024 |
| ExampleVm.VmMemory.StoreBytes | examples/example_vm/example_vm.cpp:113-121 | on success exactly the region holds the value; on failure nothing changes |
| ExampleVm.Call | examples/example_vm/example_vm.cpp:315-346 | the in-place CALL case makes the specified step, including the order of host call and release |
| ExampleVm.Mstore | examples/example_vm/example_vm.cpp:233-240 | the in-place MSTORE case makes the specified step or reports EVMC_FAILURE |
| ExampleVm.OutputRegion | examples/example_vm/example_vm.cpp:350-370 | the output of RETURN and REVERT, or EVMC_FAILURE |
| ExampleVm.Compute | examples/example_vm/example_vm.cpp:194-263 | ADD, ADDRESS, CALLDATALOAD and MSIZE make the specified step |
| ExampleVm.PushImmediate | examples/example_vm/example_vm.cpp:264-305 | PUSH1 to PUSH32 make the specified step |
| ExampleVm.Dup | examples/example_vm/example_vm.cpp:307-313 | DUP1 makes the specified step |
| ExampleVm.AskHost | examples/example_vm/example_vm.cpp:225-248 | NUMBER and SLOAD push the host's answer and record the request |
| ExampleVm.Instruction | examples/example_vm/example_vm.cpp:186-372 | one pass through the switch on the mutable stack and memory is one `Exec` step, result or next state |
| ExampleVm.Execute | examples/example_vm/example_vm.cpp:162-376 | the loop returns the result and makes the host requests of `Run`, for every run that stays inside the arrays |
| VmSpec.ExecAdvances | examples/example_vm/example_vm.cpp:179-186 | every instruction moves pc forward and not past the end of the code, keeps stack and memory within bounds, only appends host requests |
| Simulation.Uint32Truncates | examples/example_vm/example_vm.cpp:145-149 | to_uint32 is the big-endian value modulo 2^32 |
| Simulation.Uint256KeepsValue | examples/example_vm/example_vm.cpp:125-133 | to_uint256 keeps a 32-bit value and to_uint32 undoes it |
| Simulation.AddressConversions | examples/example_vm/example_vm.cpp:136-158 | to_address is the value modulo 2^160 and undoes the conversion of addresses to words |
| Simulation.CallDataIsPaddedInput | examples/example_vm/example_vm.cpp:210-223 | the copied word is the 32 input bytes at the offset continued with zeros |
| Simulation.AddCommutes | examples/example_vm/example_vm.cpp:194-201 | ADD pushes (a + b) mod 2^32 of the 256-bit operands |
| Simulation.StepCommutes | examples/example_vm/example_vm.cpp:186-372 | reading words as numbers commutes with every instruction: the byte step is the integer machine's step |
| Simulation.RunCommutes | examples/example_vm/example_vm.cpp:162-376 | whole runs agree with the integer machine in result and host requests, for every code, input, host and gas |
| Simulation.TraceIsFaithful | examples/example_vm/example_vm.cpp:225-256 | two request traces that read the same as numbers are the same bytes |
| GasLaws.GasExact | examples/example_vm/example_vm.cpp:175-184 | a run with enough gas is the gas-free run charged one unit per fetched instruction; with less it is OUT_OF_GAS with a prefix of its requests |
| GasLaws.OutOfGasIff | examples/example_vm/example_vm.cpp:182-184 | OUT_OF_GAS exactly when gas is below the number of instructions the run would fetch |
| GasLaws.GasOnlyCutsShort | examples/example_vm/example_vm.cpp:175-184 | more gas changes only gas_left, by exactly the difference, unless the run was out of gas, and then extends its requests |
| GasLaws.ResultContract | include/evmc/evmc.h:418-456 | gas_left is what was not spent on SUCCESS and REVERT and 0 otherwise, no refund, output non-null only if non-empty, OUT_OF_MEMORY exactly when the output cannot be allocated |
| GasLaws.FetchBound | examples/example_vm/example_vm.cpp:179 | a run fetches at most as many instructions as the code has bytes left |
| StackCheck.MetricsAreExact | lib/instructions/instruction_metrics.c:36-3180 | for every revision and implemented opcode the VM leaves its stack exactly when stack_height_required or the limit is violated, and otherwise changes the height by stack_height_change |
| StackCheck.HeadsAreReached | examples/example_vm/example_vm.cpp:179-186 | a chain of steps from the start is the interpreter's sequence of loop heads: the run continues from its last state with one gas less per step |
| StackCheck.HeightIsStatic | examples/example_vm/example_vm.cpp:75-85 | at every loop head pc and stack height equal the sums of instruction lengths and stack_height_change |
| StackCheck.StaticCheckIsExact | examples/example_vm/example_vm.cpp:75-85 | a reached instruction leaves the stack or the code exactly when the static condition at its position fails |
| StackCheck.StaticStackSafety | examples/example_vm/example_vm.cpp:75-85 | code that passes the scan never pops an empty stack, pushes past 1024 or reads past its end, in any run |
| StackCheck.RejectedCodeNeverSucceeds | examples/example_vm/example_vm.cpp:186-372 | code the scan rejects never ends well given gas for all of it: it faults or stops with EVMC_FAILURE on memory |
| InstructionLaws.InstructionTable | examples/example_vm/example_vm.cpp:186-372 | which byte is which instruction, and that all others are undefined |
| InstructionLaws.StackFaultIff | examples/example_vm/example_vm.cpp:75-85 | the stack array is left exactly for missing operands or a push onto 1024 items, the code exactly for an immediate that is not all there |
| InstructionLaws.MstoreOutcome | examples/example_vm/example_vm.cpp:98-121 | MSTORE continues exactly if index + 32 <= 1024 and gives EVMC_FAILURE exactly if the 32-bit sum is above 1024 |
| InstructionLaws.EndOutcome | examples/example_vm/example_vm.cpp:350-370 | RETURN and REVERT give their status and size bytes exactly if offset + size <= 1024, EVMC_FAILURE exactly if the 32-bit sum is above 1024 |
| InstructionLaws.CallOutcome | examples/example_vm/example_vm.cpp:315-335 | CALL continues exactly if both regions end within 1024, and gives EVMC_FAILURE exactly if a 32-bit end is above 1024 |
| InstructionLaws.RunFaultsIff | examples/example_vm/example_vm.cpp:162-376 | a whole run leaves the C++ arrays exactly if it reaches, with gas for it, an instruction whose operands are missing, whose push has no room, whose immediate is cut off or whose region ends wrap around 2^32 |
| InstructionLaws.LastWordIsStored | examples/example_vm/example_vm.cpp:98-121 | a store to the last word of memory succeeds, with the gas of three instructions gone |
| MemoryHistory.MemoryIsItsHistory | examples/example_vm/example_vm.cpp:88-122 | after any uses size is the largest end requested, at most 1024, each byte is the last one written there and all bytes beyond size are zero |
| MemoryHistory.LargestEndIsMaximum | examples/example_vm/example_vm.cpp:98-108 | that end bounds every successful request and belongs to one of them |
| MemoryHistory.SizeOnlyGrows | examples/example_vm/example_vm.cpp:104-105 | size never decreases |
| MemoryHistory.RunMemoryIsItsHistory | examples/example_vm/example_vm.cpp:233-240 | at every loop head memory is the result of the MSTOREs and CALLs executed so far |
| MemoryHistory.OutputIsLastWritten | examples/example_vm/example_vm.cpp:348-371 | the output of RETURN and REVERT is, byte by byte, what the run last wrote to that region, 0 where it wrote nothing |
| MemoryHistory.ResultIsLastWritten | examples/example_vm/example_vm.cpp:162-370 | the result of a whole execution that reaches RETURN or REVERT: status, gas_left and as output the bytes the run last wrote to the region |
| MemoryHistory.CallInputIsLastWritten | examples/example_vm/example_vm.cpp:322-334 | so is the input a CALL passes to the host |
| MemoryHistory.CallTouchesOnlyItsOutput | examples/example_vm/example_vm.cpp:322-341 | CALL extends memory over the whole requested output region but writes only min(requested, returned) bytes |
| StorageStatus.Classify | include/evmc/mocked_host.hpp:192-310 | the nested EIP-2200 clauses compute the four-check form and the default branch is unreachable |
| StorageStatus.ClassificationIsDocumented | include/evmc/evmc.h:569-642 | the status is the one whose documented o -> c -> v pattern matches, and no other pattern matches |
| StorageStatus.Eip2200Numbers | include/evmc/evmc.h:560-642 | cost and refund of every status with the numbers of EIP-2200 |
| StorageStatus.NetGasStep | include/evmc/mocked_host.hpp:192-313 | cost minus refund of one write is SLOAD_GAS plus the change of a potential of (original, current), and so for clear refunds |
| StorageStatus.NetGasTelescopes | include/evmc/mocked_host.hpp:192-313 | any number of writes to a slot costs SLOAD_GAS each plus a function of original, first and last value |
| StorageStatus.ClearRefundsOfCleanSlot | include/evmc/mocked_host.hpp:251-270 | for a slot that starts clean, outstanding clear refunds are 1 exactly when a non-zero original is now zero, else 0 |
| HostHistory.InterleavedGasTelescopes | include/evmc/mocked_host.hpp:172-314 | the same for writes to any slots interleaved with each other and with all other methods |
| HostHistory.InterleavedClearsTelescope | include/evmc/mocked_host.hpp:172-314 | in the same runs the outstanding clear refunds are the change in the number of slots with a non-zero original and a zero current value |
| HostHistory.ClearsNeverNegative | include/evmc/mocked_host.hpp:172-314 | when all slots start clean the outstanding clear refunds are the number of slots now cleared |
| HostHistory.StorageAgreesWithHistory | include/evmc/mocked_host.hpp:157-183 | get_storage gives the last value set, originals never change, access_storage is Cold only on the first access of a cold slot; transient storage likewise |
| HostHistory.AccountsAreKept | include/evmc/mocked_host.hpp:172-314 | over any run balance, code and code hash of every account stay, no account disappears, and a new one is empty and belongs to an address whose storage was written or accessed |
| HostHistory.FreshSlots | include/evmc/mocked_host.hpp:16-40 | a slot of a host without accounts is cold and zero, and its first non-zero write gives EVMC_STORAGE_ADDED |
| HostHistory.FreshHostAnswers | include/evmc/mocked_host.hpp:157-169 | from a host without accounts every later slot follows from the calls made alone; only the precompiles 1 to 9 are warm at first |
| HostHistory.LogsAreRecorded | include/evmc/mocked_host.hpp:408-422 | block numbers asked for and logs emitted are recorded completely and in order |
| HostHistory.AccessRecordIsPrefix | include/evmc/mocked_host.hpp:139-146 | the access record is the first min(200, n) recorded addresses of any run |
| HostHistory.DocumentedAccessIff | include/evmc/mocked_host.hpp:424-455 | access_account answers as documented for all addresses exactly when no address first recorded after the 200th, other than a precompile, is dropped |
| HostHistory.ShortRunsAreDocumented | include/evmc/mocked_host.hpp:437-455 | with at most 200 recorded accesses the documented answer is given |
| HostHistory.DocumentedAccessFails | include/evmc/mocked_host.hpp:440-455 | a run of 201 accesses after which an accessed account is reported Cold |
| HostHistory.RecordedCallsKeepTheirInputs | include/evmc/mocked_host.hpp:380-402 | in any run without a clear each of the first 100 recorded calls carries its message's fields and its pointer leads to its own input bytes |
| HostHistory.RecordedInputsAreGoodIff | include/evmc/mocked_host.hpp:384-399 | in any run of a new host, clears included, all recorded inputs can be read exactly if each is empty, or fits the storage left at the last clear together with the others, or was copied after that was full, or is too long for a string object |
| HostHistory.RecordedInputsGoBad | include/evmc/mocked_host.hpp:384-399 | 51 to 99 calls with a short input, a clear and as many again leave records that dangle |
| HostHistory.SelfdestructsAreRecorded | include/evmc/mocked_host.hpp:371-377 | beneficiaries are recorded in order and the answer is true exactly for the first selfdestruct of an account |
| VmOnHost.StorageIsLastStore | examples/example_vm/example_vm.cpp:242-256 | at every loop head the mocked host's slot of the executing account holds the value last stored there by SSTORE, or the initial one |
| VmOnHost.SloadReadsLastStore | examples/example_vm/example_vm.cpp:242-256 | on the mocked host SLOAD pushes the value the execution last stored under the key, or the initial one |
| VmOnHost.RunKeepsOtherStorage | examples/example_vm/example_vm.cpp:250-256 | a whole run leaves the storage of every other account as it was, on any host and with any gas |
| MockedHost.PrecompileRange | include/evmc/mocked_host.hpp:449-452 | the two chunked comparisons select exactly the addresses 1 to 9 |
| MockedHost.Host.RecordAccountAccess | include/evmc/mocked_host.hpp:139-146 | appends the address while fewer than 200 are recorded |
| MockedHost.Host.SetStorage | include/evmc/mocked_host.hpp:172-314 | records the access, creates the entry if missing, changes only its current value and returns the status of (original, current, value); balances, codes and other accounts stay |
| MockedHost.Host.GetStorage | include/evmc/mocked_host.hpp:157-169 | records the access and returns the current value, zero if account or key is missing |
| MockedHost.Host.AccountExists | include/evmc/mocked_host.hpp:150-154 | records the access and tells whether the account is present |
| MockedHost.Host.GetBalance | include/evmc/mocked_host.hpp:317-325 | records the access and returns the balance, zero for a missing account |
| MockedHost.Host.CopyCode | include/evmc/mocked_host.hpp:348-368 | copies the code from the offset as far as code and buffer reach and leaves the rest of the buffer alone |
| MockedHost.Host.Selfdestruct | include/evmc/mocked_host.hpp:371-377 | appends the beneficiary and answers true when it is the account's first |
| MockedHost.Host.Call | include/evmc/mocked_host.hpp:380-402 | records the call and a copy of its input while there is room, and wraps a copy of call_result |
| MockedHost.Host.ClearRecordedCalls | include/evmc/mocked_host.hpp:119-120 | clearing the public record keeps everything else, the copies of the inputs included |
| MockedHost.Host.GetBlockHash | include/evmc/mocked_host.hpp:408-412 | records the number and returns the configured hash |
| MockedHost.Host.EmitLog | include/evmc/mocked_host.hpp:415-422 | appends the log record |
| MockedHost.Host.AccessAccount | include/evmc/mocked_host.hpp:440-455 | Warm for a precompile or a recorded address, judged before recording this access |
| MockedHost.Host.AccessStorage | include/evmc/mocked_host.hpp:471-477 | returns the previous access status and leaves the slot warm, creating it if missing; balances, codes and other accounts stay |
| MockedHost.Host.GetTransientStorage | include/evmc/mocked_host.hpp:484-496 | records the access and returns the transient value, zero if missing |
| MockedHost.Host.SetTransientStorage | include/evmc/mocked_host.hpp:503-509 | records the access and sets the transient value only; balances, codes and other accounts stay |
| WordOrder.Compare | include/evmc/bytes.hpp:57-67 | -1, 0 or 1 as the first differing byte decides |
| WordOrder.LexIsIntegerOrder | include/evmc/bytes.hpp:56-67 | lexicographic order of equally long byte strings is the order of their big-endian integers |
| WordOrder.LittleEndianLoads | include/evmc/evmc.hpp:136-156 | the little-endian loads are the values of their bytes in reverse order |
| WordOrder.EqualityIsBytewise | include/evmc/evmc.hpp:171-219 | operator== on little-endian loads holds exactly when all bytes agree |
| WordOrder.AddressLessIsIntegerOrder | include/evmc/evmc.hpp:185-192 | the 64/64/32-bit chunked order is the byte order and the integer order |
| WordOrder.WordLessIsIntegerOrder | include/evmc/evmc.hpp:228-237 | the four-chunk order is the byte order and the integer order |
| WordOrder.AddressOperators | include/evmc/evmc.hpp:171-210 | all six operators on addresses are the integer comparisons, hence one total order |
| WordOrder.WordOperators | include/evmc/evmc.hpp:213-272 | the same for bytes32, and is_zero is being 0 |
| WordHash.MixIsInvertible | include/evmc/evmc.hpp:163-166 | for a fixed word fnv1a_by64 is a bijection of states, with an explicit inverse |
| WordHash.MixIsBijective | include/evmc/evmc.hpp:163-166 | for a fixed state it is a bijection of words: injective, and every target state is reached |
| WordHash.HashIsFold | include/evmc/evmc.hpp:929-957 | the nested hash expressions are the fold of fnv1a_by64 over the values of the 8-byte chunks read in reverse |
| WordHash.MixIsXorThenMultiply | include/evmc/evmc.hpp:163-166 | fnv1a_by64 multiplies by the FNV prime after the exclusive or |
| WordHash.ZeroHashes | test/unittests/cpp_test.cpp:145-146 | the hashes of the zero address and the zero word are the published numbers |
| WordHash.NoAddressCollisionOnOneWord | include/evmc/evmc.hpp:932-939 | addresses that differ in exactly one loaded word have different hashes |
| WordHash.NoWordCollisionOnOneWord | include/evmc/evmc.hpp:947-956 | bytes32 values that differ in exactly one loaded word have different hashes |
| WordHash.TwoWordsCanCollide | include/evmc/evmc.hpp:163-166 | one word is the limit: every change of a word can be cancelled by the next word |
| Ownership.MakeResult | include/evmc/helpers.h:127-156 | status, gas, refund and a copy of the output, or only EVMC_OUT_OF_MEMORY when the copy cannot be allocated; a release function exactly when it was |
| Ownership.Result.FromRaw | include/evmc/evmc.hpp:385 | takes the raw result over as it is |
| Ownership.Result.Move | include/evmc/evmc.hpp:395-398 | the new object owns what the other owned, the other owns nothing |
| Ownership.Result.Destroy | include/evmc/evmc.hpp:388-392 | releases exactly what is owned |
| Ownership.Result.MoveAssign | include/evmc/evmc.hpp:406-412 | releases the old resource once and takes over the other's; accounted for self-assignment too |
| Ownership.Result.ReleaseRaw | include/evmc/evmc.hpp:428-433 | hands the resource to the caller and gives up ownership |
| Ownership.InternalCall | include/evmc/evmc.hpp:828-831 | the Host's result leaves as a raw copy and the temporary releases nothing |
| Ownership.ContextCall | include/evmc/evmc.hpp:569-572 | after the hand-over the new wrapper owns the Host's result and nothing was released |
| Ownership.Vm.Destroy | include/evmc/evmc.hpp:660-664 | destroys the instance exactly when there is one |
| Ownership.Vm.Move | include/evmc/evmc.hpp:670 | ownership of the instance moves |
| Ownership.Vm.MoveAssign | include/evmc/evmc.hpp:673-679 | the old instance is destroyed once and the other's is taken; self-move destroys once and leaves null |
| Ownership.RunOnResults | include/evmc/evmc.hpp:385-433 | a program of constructions, moves, hand-overs and destructions run on `Result` objects leaves them, the raw copies and the releases as in its `Outcome` |
| Ownership.RunOnVms | include/evmc/evmc.hpp:648-679 | the same for constructions, moves and destructions of `VM` objects |
| Ownership.ReleasesAreConserved | include/evmc/evmc.hpp:385-433 | over any program past releases plus live owners plus raw copies taken equal the times a result was issued |
| Ownership.ReleasedExactlyOnce | include/evmc/evmc.hpp:385-433 | a result issued once is released at most once, and exactly once when all holders and takers are done |
| Ownership.MockedCallIsLinearIff | include/evmc/mocked_host.hpp:401 | wrapping the same call_result n times releases it at most once only if n <= 1 or it has no release function |
| Hex.FilterIterator.constructor | include/evmc/filter_iterator.hpp:68-71 | rests on the first retained element and yields the retained subsequence |
| Hex.FilterIterator.ForwardToNextValue | include/evmc/filter_iterator.hpp:56-64 | skips to the next retained element, reading each base element once and in order |
| Hex.FilterIterator.Next | include/evmc/filter_iterator.hpp:82-86 | yields exactly the next retained element |
| Hex.DigitCharacters | include/evmc/hex.hpp:36-46 | the digits are the 22 characters 0-9, a-f and A-F, upper and lower case of the same value |
| Hex.DigitValues | include/evmc/hex.hpp:36-46 | a digit's value is its place in the row of lower-case digits |
| Hex.AcceptedIff | include/evmc/hex.hpp:57-80 | exactly the strings of even length with only those characters after an optional 0x are decoded |
| Hex.CaseDoesNotMatter | include/evmc/hex.hpp:36-46 | a string and its lower-case form decode to the same bytes |
| Hex.FilterIsByCharacter | include/evmc/filter_iterator.hpp:56-86 | filtering keeps or drops each character by itself and keeps their order |
| Hex.FromHex | include/evmc/hex.hpp:57-80 | succeeds exactly on even-length digit strings with an optional 0x, yields their bytes, never more than half the input |
| Hex.ValidateHex | include/evmc/hex.hpp:85-95 | holds exactly when from_hex succeeds |
| Hex.FromHexString | include/evmc/hex.hpp:101-108 | the decoded bytes exactly for the strings of `AcceptedIff`; at most half the input's length |
| Hex.FromSpacedHex | include/evmc/hex.hpp:137-151 | from_hex of the input with its whitespace removed |
| Hex.SpacesAreTheAsciiOnes | include/evmc/filter_iterator.hpp:10-14 | the unsigned trick accepts exactly space and the characters 9 to 13 |
| Hex.HexBytes | include/evmc/hex.hpp:23-30 | for each byte in order the lower-case digits of its quotient and remainder by 16 |
| Hex.FromHexFixed | include/evmc/hex.hpp:115-130 | all writes stay in T; longer or invalid inputs are rejected; the digits land after the left padding |
| Hex.DecodeInvertsEncode | include/evmc/hex.hpp:16-30 | decoding hex(b) gives b, with or without 0x, and also into a type of the same width |
| Hex.EncodeInvertsDecode | include/evmc/hex.hpp:36-46 | encoding a decoded string gives it back in lower case without its prefix |
| Hex.FixedValue | include/evmc/hex.hpp:110-130 | the result has the value of the digits, times 256 if a second prefix was swallowed |
| Hex.FixedKeepsValueIff | include/evmc/hex.hpp:110-130 | left padding keeps the value exactly without a second prefix or for value 0 |
| Hex.DoubledPrefix | include/evmc/hex.hpp:118-128 | "0x0x01" as two bytes is 0x0100 |
| Hex.FixedRejects | include/evmc/hex.hpp:123-128 | none exactly for more than n digit pairs or an invalid remainder |
| Loader.StrcpySx | lib/loader/loader.c:51-67 | copies with its NUL, or leaves an empty string and an error when it does not fit; nothing else in the buffer changes |
| Loader.NamePosition | lib/loader/loader.c:141-154 | the file name after the last '/', without a leading "lib" |
| Loader.ReplaceDashes | lib/loader/loader.c:164-167 | every '-' of the C string at base becomes '_' and nothing else in the buffer changes |
| Loader.DashedText | lib/loader/loader.c:164-167 | the C string then there is the underscored one |
| Loader.TrimExtension | lib/loader/loader.c:159-162 | at most one character changes: the first '.' of the C string becomes NUL |
| Loader.TrimmedText | lib/loader/loader.c:159-162 | the C string then is the text before its first '.' |
| Loader.BuildSymbolName | lib/loader/loader.c:135-167 | the in-place edits compute the documented symbol, inside the buffer |
| Loader.System.Load | lib/loader/loader.c:97-186 | the first of the symbol and "evmc_create" that resolves; error codes; the library is closed exactly when neither does |
| Loader.System.LoadAndCreate | lib/loader/loader.c:195-228 | the created VM or the error, with a VM of another ABI version destroyed; the library is opened unless the name is refused or it cannot be opened, and closed exactly without a symbol |
| Loader.GetToken | lib/loader/loader.c:230-251 | the token is the text before the delimiter, the rest the text after it, and nothing after the scanned string changes |
| Loader.NextOption | lib/loader/loader.c:283-287 | the next option as (name, value) and the position of the rest, after both in-place cuts |
| Loader.System.OfferOptions | lib/loader/loader.c:274-310 | the loop ends and offers the parsed options in order up to the first rejection |
| Loader.System.LoadAndConfigure | lib/loader/loader.c:253-322 | VM, error and offered options of the configuration; a created VM that is not returned is destroyed exactly once; the library is opened and closed as in `LoadAndCreate` |
| LoaderSpec.NameDroppedIff | lib/loader/loader.c:157 | the name is dropped exactly for a 4096-character path without '/' and leading "lib" |
| LoaderSpec.DocumentedSymbolIff | lib/loader/loader.c:135-167 | for every path of accepted length, the symbol looked up is the documented one exactly if the path is not one of 4096 characters without '/', leading "lib" and leading '.' |
| LoaderSpec.DocumentedSymbolIsMissed | lib/loader/loader.c:157-184 | for 4096 letters a library with only the documented symbol gives SYMBOL_NOT_FOUND |
| LoaderSpec.FileNameSuffix | lib/loader/loader.c:141-148 | the file name is the longest suffix of the path without '/' |
| LoaderSpec.SymbolRules | include/evmc/loader.h:69-80 | for every directory, optional "lib", base name and extensions the symbol is "evmc_create_" and the base name with '_' for '-' |
| LoaderSpec.LoadedIsFirstSymbol | lib/loader/loader.c:169-184 | the entry of the derived symbol whenever there is one, else that of "evmc_create", else nothing |
| LoaderSpec.LoadErrorCodes | lib/loader/loader.c:97-186 | each error code of evmc_load with its only cause |
| LoaderSpec.CreateErrorCodes | lib/loader/loader.c:195-228 | success exactly for a created VM of ABI version 12, and the cause of each failure |
| LoaderSpec.ConfigureErrorCodes | lib/loader/loader.c:274-310 | the error code for each answer of set_option and for a VM without it |
| LoaderSpec.ConfigureWithoutVm | lib/loader/loader.c:267-272 | when no VM is created its error is returned and no option offered |
| LoaderSpec.OfferedUpToFirstRejection | lib/loader/loader.c:274-310 | offering succeeds exactly when every option is accepted after the ones before it, and otherwise stops at the first that is not |
| LoaderSpec.PrintedConfigurationIsRead | lib/loader/loader.c:234-287 | a printed path and option list is read back exactly |
| LoaderSpec.ConfigurationRoundTrip | lib/loader/loader.c:253-322 | loading a printed configuration offers its options in order and yields the VM exactly when all are accepted |
| LoaderSpec.ConfigurationTooLongIff | lib/loader/loader.c:258-265 | INVALID_ARGUMENT exactly for 4096 characters or more or an empty path, so the limit of the error text fails exactly at length 4096 |
| LoaderSpec.ConfigurationAtLimit | lib/loader/loader.c:258-265 | a configuration of 4096 characters that is rejected and loads without its last one |
| HostRegistry.EveryInterleavingIsSafe | bindings/go/evmc/evmc.go:208-272 | in every interleaving of any number of calls: mutual exclusion, distinct ids, the map holds exactly the contexts in flight, every callback sees its own context, as long as no call stays in flight while 2^64 (or 2^32) ids are handed out after its own |
| HostRegistry.DistinctIffWithinLimit | bindings/go/evmc/evmc.go:252-259 | that limit is exact: a run keeps it if and only if two calls in flight never share an id |
| HostRegistry.WrappedIdMisleadsCallback | bindings/go/evmc/evmc.go:252-272 | a run one call over the limit: the counter wraps, a new call takes the id of one in flight, and that one's callback gets the other's context |
| HostRegistry.NothingLeftBehind | bindings/go/evmc/evmc.go:261-265 | in every run, wrapped or not, the map is empty and the mutex free once all calls have returned |
| HostRegistry.NeverStuck | bindings/go/evmc/evmc.go:246-272 | in every run some thread can always move until all calls have returned |
| HostRegistry.AllCanReturn | bindings/go/evmc/evmc.go:246-272 | from every reachable state some schedule makes all calls return and leaves the map empty and the mutex free |
| HostRegistry.CriticalSectionsAreAtomic | bindings/go/evmc/evmc.go:252-272 | while one thread is in its critical section every other one waits |
| HostRegistry.ReusedIdBreaksCallbacks | bindings/go/evmc/evmc.go:252-272 | whenever a step of any run exceeds the limit, some continuation gives a callback no context |
| HostRegistry.AddRunsAsMethod | bindings/go/evmc/evmc.go:252-259 | the separate steps of addHostContext, uninterrupted, change the variables as `Registry.AddHostContext` does and give the thread its id |
| HostRegistry.GetRunsAsMethod | bindings/go/evmc/evmc.go:267-272 | the same for getHostContext |
| HostRegistry.RemoveRunsAsMethod | bindings/go/evmc/evmc.go:261-265 | the same for removeHostContext |
| HostRegistry.Registry.AddHostContext | bindings/go/evmc/evmc.go:252-259 | returns the counter as id, advances it modulo 2^64 or 2^32 and registers the context |
| HostRegistry.Registry.RemoveHostContext | bindings/go/evmc/evmc.go:261-265 | removes exactly that id |
| HostRegistry.Registry.GetHostContext | bindings/go/evmc/evmc.go:267-272 | the registered context, nothing for an unknown id |

## Left out

- The tools, benchmarks, CMake files, stream output and to-string switches: input/output and tables.
- The precompiles VM, `example_host.cpp` and the forwarding methods of `HostContext` and `Host` other than `call`: short dispatches that would only add easy members.
- `get_code_size`, `get_code_hash` and `get_tx_context` of the mocked host: the first two have the effect of `HostSpec.Query`, the last has none.
- `Account::nonce` and `set_balance`: not used by any Host method.
- The message fields that the example VM's CALL leaves zero, in `VmSpec`; `VmOnHost.MessageOf` fills them in.
- Instruction names, gas cost columns and the stack columns of opcodes the example VM does not implement.
- The `verbose` option and its `strtol`; printing in `execute`.
- `dlopen`, `dlsym` and error-message texts; the Windows path rules of the loader.
- Null pointers for configuration strings and the optional null `error_code` pointer.
- Reading a released result: ownership counts releases; a self-assigned `Result` keeps a dangling output pointer, which the source forbids.
- The rest of the Rust and Go bindings: struct conversions and generated code.
- HostRegistry.EveryInterleavingIsSafe: states nothing once more than 2^64 (or 2^32) ids are handed out during one call; `HostRegistry.ReusedIdBreaksCallbacks` shows that safety then ends.
- HostRegistry.Registry.AddHostContext: a method is the critical section of its function; locking, waiting and interleaving are in the step-by-step machine.
- HostHistory.RecordedInputsAreGoodIff: for a vector that doubles and moves its strings, as in libstdc++ and libc++; the longest text kept inside a string object is a parameter.
- MockedHost.Host.Call: the code of a message is its pointer and size, which are recorded as they are; the bytes behind the pointer are not part of this model.
- Hex.FromHex: one decoder over the filter iterator stands for the template; a plain iterator is one that retains everything.
- Hex.FilterIterator.Next: the base iterator is an index into a string rather than an arbitrary input iterator.
- Account storage is held in immutable maps that the methods of `MockedHost.Host` reassign; references into them are not modelled.
