# Verified model of the Ethereum Rosetta indexer

The indexer turns geth's call traces into ledger operations and builds transactions
offline. This project models the two engines and what surrounds them, in Dafny, and
proves what they promise:

- **From events to a flat trace.** `CallTracer.dfy` is the JavaScript stack machine that
  rebuilds a call tree from the EVM's enter and exit events, `JsObjects.dfy` the objects it
  holds and the key order its report is finalized to. `Calls.dfy` decodes the report into heap
  objects and flattens them in place, propagating reverts; `CallTrees.dfy` says what that means
  on values. `EndToEnd.dfy` puts them together and describes the result in terms of the events
  alone.
- **From a flat trace to operations.** `TraceOps.dfy` is the debit and credit engine with its
  map of destroyed accounts, iterated in an arbitrary order at the end. `TraceLaws.dfy` proves
  index discipline, conservation, the meaning of the map, independence of the iteration order
  and which frames do not matter. `Ledger.dfy` compares the operations of a trace with a
  reference ledger that moves balances.
- **Transactions and blocks.** `Fees.dfy`, `Rewards.dfy` and `Blocks.dfy`: the EIP-1559 fee
  split, the reward arithmetic with its float path, and conservation over a whole block.
  `Settlement.dfy` extends the reference ledger to transactions and blocks, gas purchase, fees
  and rewards included; `Tracking.dfy` carries the result back to the event stream, and
  `Mistracked.dfy` holds event streams that are not tracked.
- **Offline construction.** `Hex.dfy`, `Addresses.dfy`, `Wire.dfy` and `Construction.dfy`: hex
  quantities, address texts, the wire records and the payloads, combine and parse endpoints.
- **Bootstrap balances.** `Sorting.dfy`, `Bootstrap.dfy` and `BootstrapLaws.dfy`: the genesis
  file, its contents, and when it is deterministic.

`Types.dfy` holds the shared vocabulary, `Arithmetic.dfy` facts about products and quotients. An
address is a 160-bit number, an amount an integer, a trace type a constructor of `OpType`
(`Other` is meant for opcode names without a constructor of their own; the laws hold for any
name). Balances tracked per account, keyed by checksummed text in the program, are keyed by the
address itself; the two are in bijection by `Addresses.TextRoundTrip`. Everything imperative in
the sources is a method or a class here, proved equal to a function of its inputs; the laws are
lemmas about that function.

## Where the code falls short of its documentation

- "Comprehensive tracking of all ETH balance changes" (README.md:90) is met by an accepted
  transaction with readable metadata if and only if every account is settled
  (`Settlement.TransactionRefinement`, and `Settlement.BlockRefinement` for all transactions of a
  block and its rewards). There are two ways to miss it. Lines 802-803 and 823-825 of
  `ethereum/client.go` do not look at the revert mark: an account whose latest self-destruct or
  create was reverted is settled exactly when what it received in between, or since, cancels
  (`Ledger.Settled`). And the fee is credited without regard to the destroyed accounts: when all
  self-destructs took effect, an account that ends destroyed may not be paid after the last
  frame (`Tracking.EventsAreSettled`). `Mistracked.RevertedSelfDestructIsMistracked`,
  `Mistracked.RevertedSelfDestructExits`, `Mistracked.RevertedCreateIsMistracked` and
  `Mistracked.DestroyedMinerIsMistracked` give well-nested, affordable event streams on which
  the operations do not replay to the balances; on the second the process exits.
- "With address checksum validation" (README.md:91): an address text is accepted whatever its
  letter case is (`Addresses.ChecksumIgnoresCase`), also with every letter in the wrong case
  (`Addresses.WrongCaseAccepted`).
- For the three rewards of the chain the miner's reward equals its closed form exactly while
  that is an int64 (`Rewards.EthashRewardsExact`), up to 27, 66 and 115 uncles; the Frontier
  reward with 28 uncles wraps (`Rewards.FrontierRewardWraps`). The uncle depth limit is not
  checked: beyond depth 8 the uncle operation is a debit (`Rewards.UncleRewardExact`,
  `Rewards.OldUncleIsCharged`).
- The wire codec and the rebuilding of a transaction are exact for 256-bit quantities only
  (`Wire.TransactionRoundTrip`, `Construction.CombineRebuilds`, both directions), and the
  sending amount of an intent is never compared with the receiving one
  (`Construction.UnsignedParseReturnsIntent`).
- Genesis keys that name one address are each listed, all with the balance of the key visited
  last (`BootstrapLaws.GenerateCounts`, `BootstrapLaws.TwoKeysListedTwice`), so the file, if one
  is made, depends on the map's iteration order unless their texts read the same
  (`BootstrapLaws.DeterministicIff`).

## Model

| member | source | states |
|---|---|---|
| `CallTracer.Tracer.constructor` | ethereum/call_tracer.js:22 | the machine starts with one empty root call |
| `CallTracer.Tracer.Enter` | ethereum/call_tracer.js:49-61 | pushes a call with the frame's keys, `value` only if the frame has one |
| `CallTracer.Tracer.Exit` | ethereum/call_tracer.js:62-82 | pops and hangs the finished call under its parent; ignored when only the root is left |
| `CallTracer.Tracer.Feed` | ethereum/call_tracer.js:49-82 | a whole event stream drives the machine to the state the step function says |
| `CallTracer.Tracer.Result` | ethereum/call_tracer.js:24-48 | the report of the outermost message, key by key: the context's data, the calls and error found on the stack or else the context's error, and the output unless it ended in an error other than a revert with output |
| `JsObjects.Finalize` | ethereum/call_tracer.js:86-111 | terminates; rebuilds the object from its defined keys and finalizes its calls one by one |
| `JsObjects.FinalizeOrders` | ethereum/call_tracer.js:83-111 | the keys of the result stand in display order, none undefined, all the way down; they hold what they held; finalizing twice is finalizing once |
| `JsObjects.FinalizedKeys` | ethereum/call_tracer.js:87-99 | the display order, spelled out: the keys of an object that has them all |
| `JsObjects.FinalizedIffSame` | ethereum/call_tracer.js:86-111 | two objects are finalized to the same one iff they hold the same, whatever the order their keys were added in |
| `JsObjects.ReadFinalized` | ethereum/call_tracer.js:47-111 | what decoding reads from the finalized report is the recorded call |
| `CallTracer.TracerInverse` | ethereum/call_tracer.js:49-82 | serialising any forest and running the machine returns that forest under a stack of length one |
| `CallTracer.RecordOf` | ethereum/call_tracer.js:49-75 | what is recorded of a frame, key by key: the data it was entered with, gas used, and either output or error; a failed create has lost its address |
| `CallTracer.RootNeverPopped` | ethereum/call_tracer.js:62-82 | for arbitrary streams the root stays, gains no key but `calls`, and the stack holds one call per open frame |
| `CallTracer.WellNestedIsForest` | ethereum/call_tracer.js:49-82 | every well-nested stream is the serialisation of a forest |
| `CallTrees.CloseIdempotent` | ethereum/client.go:714-734 | flattening again returns the same list and changes nothing |
| `CallTrees.PreorderSize` | ethereum/client.go:714-734 | exactly one flat entry per call of the tree |
| `CallTrees.SpreadEmpty` | ethereum/client.go:1222 | with the empty accumulator the result is the preorder list itself |
| `CallTrees.SpreadBefore` | ethereum/client.go:715-716 | with any other accumulator, it stands right before every entry |
| `CallTrees.ErrorPropagation` | ethereum/client.go:714-734 | every flat entry is its frame with the message of its nearest erring ancestor-or-self, and is reverted iff there is one |
| `CallTrees.FlattenedMarksErrors` | ethereum/client.go:704-728 | after flattening, reverted still means having an error message |
| `Calls.DecodeMarksErrors` | ethereum/client.go:704-709 | decoding a report into new objects marks exactly the frames with an error message as reverted |
| `Calls.MissingKeys` | ethereum/client.go:691-709 | missing keys are decoded as zero values |
| `Calls.Call.Flatten` | ethereum/client.go:662-672 | copies the frame's fields |
| `Calls.Call.UnmarshalJSON` | ethereum/client.go:691-712 | decodes a report into a tree of fresh objects; a revert mark the receiver already has survives |
| `Calls.FlattenTraces` | ethereum/client.go:715-734 | terminates, turns the tree into its revert-closed form in place touching only revert marks and messages, and returns its preorder with the accumulator before every entry |
| `EndToEnd.TraceTransaction` | ethereum/call_tracer.js:23-82 | tracer, decoding and flattening composed compute the flattened trace of the stream |
| `EndToEnd.RecordedFrames` | ethereum/call_tracer.js:49-82 | for every well-nested stream the tracer records one call per frame, in entry order, with the data of its enter and exit events |
| `EndToEnd.EntryOrderAndStatus` | ethereum/client.go:675-734 | for every well-nested stream: the root, then the frames in entry order with their own data; reverted iff the frame, one around it or the root failed, with the innermost failure's message; a failed create has lost its address |
| `TraceOps.TraceOps` | ethereum/client.go:738-890 | the outcome is that of the step function and, for some iteration order of the map, the final loop |
| `TraceOps.ApplyTrace` | ethereum/client.go:745-860 | one turn of the main loop: reported legs, reset, removal and tracking of destroyed accounts |
| `TraceOps.DestructOps` | ethereum/client.go:862-889 | the final loop over the destroyed accounts in some iteration order, including the process exit on a negative balance |
| `TraceOps.DestroyedImpliesOps` | ethereum/client.go:873-876 | a destroyed account implies an operation, so the last operation exists wherever its index is read |
| `TraceLaws.FrameReported` | ethereum/client.go:745-860 | the operations one more frame adds, field by field: none for a call of one of the four types without value, else a debit and, unless it is a self-destruct to itself, the related credit, with the frame's type, status and error message |
| `TraceLaws.ResultDisciplined` | ethereum/client.go:774-887 | the operation at i has index start + i and is, field by field, the debit leg of a frame, the credit leg of one related to the debit leg just before it, or a DESTRUCT |
| `TraceLaws.TraceConservation` | ethereum/client.go:772-887 | successes sum to minus successful self-targeted self-destructs and residues, failures to minus the reverted self-targeted ones, without any assumption on balances |
| `TraceLaws.DestroyedInvariant` | ethereum/client.go:790-855 | after any number of frames the map holds exactly the accounts whose latest mark is a self-destruct, each with the net flow since |
| `TraceLaws.DestroyedSince` | ethereum/client.go:790-855 | the same by position: tracked iff there is a self-destruct with no later one and no later create, with the flow behind it |
| `TraceLaws.RunCredited` | ethereum/client.go:772-859 | the successful operations on an account are what the successful frames moved to it |
| `TraceLaws.DestroyedNetZero` | ethereum/client.go:801-887 | the successes on a destroyed account after its latest self-destruct, DESTRUCT included, sum to zero |
| `TraceLaws.FinishPays` | ethereum/client.go:864-887 | the final loop completes iff no residue is negative, and then takes from each account with a residue exactly that, once, in success operations |
| `TraceLaws.FinishExits` | ethereum/client.go:869-871 | the process exits for the first overdrawn account in iteration order, with its balance |
| `TraceLaws.OrderIndependence` | ethereum/client.go:864-887 | survival and the multiset of DESTRUCT accounts and amounts are the same for every iteration order |
| `TraceLaws.ZeroCallsDoNotMatter` | ethereum/client.go:754-766 | dropping the zero-value calls changes neither an operation nor an index nor the map |
| `TraceLaws.FailedFramesDoNotMatter` | ethereum/client.go:790-855 | dropping reverted frames other than self-destructs and creates keeps the successful pairs in order and the map |
| `TraceLaws.NonInterference` | ethereum/client.go:738-890 | both, for the whole engine with its final loop |
| `TraceLaws.FailuresExplained` | ethereum/client.go:748-752 | from a decoded and flattened tree, a failed operation carries the message of its reverted frame, which is not empty; no other operation carries one |
| `Ledger.WorldInvariant` | ethereum/client.go:800-855 | reference ledger: balances follow the frames and stay non-negative; condemned accounts hold what they received since |
| `Ledger.LedgerRefinement` | ethereum/client.go:738-890 | on every affordable trace: the engine completes and its successes replay to the reference balances iff every account is settled, by the positions of its latest self-destruct or create and of the latest that took effect |
| `Ledger.RefinesWithoutRevertedMarks` | ethereum/client.go:738-890 | in particular with no reverted self-destruct and no reverted create of a tracked account; the process exit is then unreachable |
| `Settlement.TransactionRefinement` | ethereum/client.go:1212-1225 | with gas purchase, refund and the miner's pay in the reference: a transaction is populated and replays to its settlement iff its metadata is readable and every account is settled, late pay included |
| `Settlement.BlockRefinement` | ethereum/client.go:1181-1210 | a block is populated and replays, after each transaction, to the settled balances plus the block's earnings iff that holds of every transaction |
| `Settlement.RewardsEarned` | ethereum/client.go:1280-1349 | what the reward operations credit to any account: the miner's reward and its uncles' shares in closed form |
| `Tracking.MarksHoldIff` | ethereum/client.go:802-825 | by the events alone: when no self-destruct is undone and no undone create makes an account that had self-destructed and was not created since |
| `Tracking.FailedCreatesHold` | ethereum/call_tracer.js:71-74 | creates that fail by themselves lose their address and do no harm |
| `Tracking.EventsAreTracked` | ethereum/client.go:675-890 | then, from any well-nested affordable event stream, the operations replay to the reference balances; other creates may fail |
| `Tracking.EventsAreSettled` | ethereum/client.go:1212-1225 | then the transaction around the stream is populated and replays to its settlement iff its metadata is readable and no account that ends destroyed is paid late |
| `Mistracked.RevertedSelfDestructIsMistracked` | ethereum/client.go:802-803 | an event stream with a reverted self-destruct, for every amount paid later: in no iteration order does it replay to the balances |
| `Mistracked.RevertedSelfDestructExits` | ethereum/client.go:869-871 | an affordable event stream, for every amount spent later, on which the process exits |
| `Mistracked.RevertedCreateIsMistracked` | ethereum/client.go:823-825 | an event stream with a reverted create of a destroyed account, likewise not tracked |
| `Mistracked.DestroyedMinerIsMistracked` | ethereum/client.go:935-996 | an event stream whose miner self-destructs, for every fee: the fee is removed but no operation says so |
| `Fees.FeeOpsSplit` | ethereum/client.go:935-996 | the payer pays the whole fee, the miner gets what is not burned, nobody else is touched, the total is minus the burned amount |
| `Fees.FeeOpsAre` | ethereum/client.go:942-995 | the two or three fee operations, field by field |
| `Fees.TransactionCharged` | ethereum/client.go:500-534 | from the fields of a transaction to what its fee operations credit to any account: gas used times the gas price, for type 2 the smaller of fee cap and tip plus base fee; the burned part; and the errors of type 2 |
| `Fees.DynamicFeeBounds` | ethereum/client.go:500-534 | a dynamic fee has a price iff the base fee is present and within the cap; price is min(cap, tip + base), between base fee and cap; miner share and payer debit bounds |
| `Fees.LegacyFeeShare` | ethereum/client.go:521-526 | other types pay the gas price whatever the base fee; the miner gets the difference per gas, negative iff gas is used below the base fee |
| `Rewards.RewardSchedule` | ethereum/client.go:1265-1278 | the reward steps down from 5 to 3 to 2 ether at the two forks and nowhere else |
| `Rewards.RoundNearest` | ethereum/client.go:1293-1295 | the modelled float rounding is to nearest and yields a 53-bit significand |
| `Rewards.RoundTies` | ethereum/client.go:1293-1295 | half way between two multiples the even one is taken |
| `Rewards.MinerRewardExact` | ethereum/client.go:1288-1297 | when the numbers fit 53 bits the float path equals R + nR/32 iff that is an int64 |
| `Rewards.EthashRewardsExact` | ethereum/client.go:1265-1297 | for the three rewards of the chain and any number of uncles: exact iff the sum is an int64, which is up to 27, 66 and 115 uncles |
| `Rewards.FrontierRewardWraps` | ethereum/client.go:1288-1297 | 28 uncles at the Frontier reward wrap to a negative amount |
| `Rewards.FrontierBonusCutOff` | ethereum/client.go:1288-1297 | 60 uncles at the Frontier reward: the bonus is cut off at the largest int64 before the sum wraps |
| `Rewards.UncleRewardExact` | ethereum/client.go:1316-1324 | an uncle at depth d earns (8 - d) eighths, which is not negative iff d is at most 8 |
| `Rewards.OldUncleIsCharged` | ethereum/client.go:1316-1339 | an uncle at depth 9 is charged a quarter ether |
| `Rewards.RewardOpsAre` | ethereum/client.go:1299-1341 | the reward operations field by field: the miner's, then one per older uncle in order |
| `Rewards.RewardOpsTotal` | ethereum/client.go:1299-1341 | the reward operations of any uncle list sum to the miner's reward and the closed-form uncle issuance |
| `Rewards.BlockIssuance` | ethereum/client.go:1280-1349 | the issuance of a block is the closed form iff the miner's part of it is an int64 |
| `Rewards.BlockRewardTransaction` | ethereum/client.go:1280-1349 | the loop builds the miner's operation and one per uncle, in order |
| `Blocks.PopulateTransaction` | ethereum/client.go:1212-1258 | the fee operations of the transaction's own sender, miner and fee, followed by the trace operations in one index space, with the metadata error and process exit outcomes; the trace is left revert-closed |
| `Blocks.PopulateTransactions` | ethereum/client.go:1181-1210 | the reward transaction and then every transaction in order, or the first failure |
| `Blocks.PopulateFails` | ethereum/client.go:1212-1240 | a transaction makes the process exit iff a destroyed account ends overdrawn, and otherwise fails iff its metadata is unreadable |
| `Blocks.TransactionDisciplined` | ethereum/client.go:1217-1225 | in a populated transaction the operation at i has index i and relates at most to the one before it; behind the fees, credit legs to their debit legs |
| `Blocks.BlockDisciplined` | ethereum/client.go:1181-1210 | the same index discipline for every transaction of a block, the reward transaction included |
| `Blocks.TransactionConservation` | ethereum/client.go:1212-1225 | a transaction's successes sum to minus burned fee, self-targeted self-destructs and residues |
| `Blocks.BlockConservation` | ethereum/client.go:1181-1210 | a block's successes sum to miner and uncle rewards less everything its transactions take out of circulation |
| `Hex.DecodeBigIff` | services/types.go:104-107 | a text decodes to n iff n is a 256-bit number and the text is, apart from case, its encoding |
| `Hex.DecodeUint64Iff` | services/types.go:99-102 | the same for 64-bit numbers |
| `Hex.DigitsAre` | services/types.go:87 | the digits of a number, by character code and place |
| `Hex.BothCases` | services/types.go:104-107 | 0xdead encoded, and decoded from both cases |
| `Hex.QuantityErrors` | services/types.go:99-107 | which error a malformed quantity gives: empty, no prefix, no digits, leading zero |
| `Hex.DigitErrors` | services/types.go:99-107 | too many digits, a bad digit or an overflow, and which of them is reported |
| `Hex.BigRoundTrip` | services/types.go:87 | decoding an encoded integer gives it back, or the error for a negative or too large one |
| `Hex.DecodeBytesIff` | services/types.go:184-187 | a text decodes to a byte string iff it is, apart from case, its encoding |
| `Hex.BytesErrors` | services/types.go:184-187 | which error a malformed byte string gives |
| `Hex.BytesRoundTrip` | services/types.go:163 | byte strings survive encoding and decoding |
| `Addresses.TextRoundTrip` | ethereum/address.go:25-32 | the checksum form of an address is valid and reads back as that address |
| `Addresses.TextForm` | ethereum/address.go:25-32 | the checksum form is 0x and the forty digits of the address, a letter upper case exactly where the casing says |
| `Addresses.AnyDigitsRead` | services/construction_service.go:307 | any row of hex digits is read as an address, by the last 40 digits of its number |
| `Addresses.ChecksumLaws` | ethereum/address.go:25-32 | checksumming keeps the address, is idempotent, and is injective on addresses |
| `Addresses.ChecksumIgnoresCase` | ethereum/address.go:25-32 | validity and result do not depend on letter case |
| `Addresses.WrongCaseAccepted` | ethereum/address.go:25-32 | the text of an address with every letter in the wrong case is accepted as the checksum form, from which it differs iff the address has a letter |
| `Wire.TransactionRoundTrip` | services/types.go:158-219 | unmarshal after marshal is the identity iff the quantities are 256-bit numbers, an error otherwise |
| `Wire.DecodeTransactionIff` | services/types.go:173-219 | a text decodes to a transaction iff its quantities are 256-bit numbers and every field is, apart from letter case, the one text of its value |
| `Wire.FirstErrorReported` | services/types.go:173-208 | of several bad fields the first in decoding order is reported |
| `Wire.Transaction.UnmarshalJSON` | services/types.go:173-219 | assigns all fields on success; on any error returns the first one and leaves the receiver unchanged |
| `Wire.MetadataRoundTrip` | services/types.go:84-112 | the metadata codec, likewise |
| `Wire.DecodeMetadataIff` | services/types.go:93-112 | which metadata texts decode, and to what, likewise |
| `Wire.MetadataErrors` | services/types.go:93-107 | the nonce's error comes before the gas price's |
| `Wire.Metadata.UnmarshalJSON` | services/types.go:93-112 | metadata decoding with an unchanged receiver on error |
| `Construction.MatchEitherOrder` | services/construction_service.go:192-219 | exactly a debit and a credit of ether, both plain calls with account and amount, are matched, in either order, and nothing else is |
| `Construction.PayloadsIff` | services/construction_service.go:219-291 | payloads are handed out iff the request asks for some transfer, and are then that transfer's text (gas limit 21000, no data), sender and signing hash, whatever the order of the operations and the letter case of texts |
| `Construction.AsksOnce` | services/construction_service.go:219-252 | a request asks for at most one transfer |
| `Construction.HandedOut` | services/construction_service.go:236-291 | the text handed out says gas "0x5208" and data "0x"; the transaction behind the hash has gas limit 21000 and no data and is the one combining rebuilds |
| `Construction.PayloadsRefused` | services/construction_service.go:219-252 | why a request is refused, and in which order: intent, metadata, sender, recipient |
| `Construction.CombineKeeps` | services/construction_service.go:300-328 | combining keeps every field of any unsigned transaction and uses the first signature |
| `Construction.CombineRefused` | services/construction_service.go:300-318 | an undecodable text is an error, then a missing or wrongly sized signature a panic |
| `Construction.CombineRebuilds` | services/construction_service.go:296-328 | combining succeeds iff amount and chain id are 256-bit numbers, and rebuilds the very transaction whose hash was handed out |
| `Construction.UnsignedParseReturnsIntent` | services/construction_service.go:350-458 | parsing the unsigned text returns nonce, gas price and chain id, and the operations asked for iff their amounts are opposite |
| `Construction.SignedParseAgrees` | services/construction_service.go:350-458 | parsing the combined transaction says the same and names the signer |
| `Construction.UnsignedParsed` | services/construction_service.go:354-458 | parsing any unsigned transaction, field by field, with the address errors in order |
| `Construction.SignedParsed` | services/construction_service.go:360-458 | parsing any signed transaction, field by field, with its signer; no recipient, or an unrecoverable signer, first |
| `Construction.ConstructionParse` | services/construction_service.go:350-458 | the method computes the reply of the parse function on every request, errors included |
| `Construction.ParseRefused` | services/construction_service.go:354-365 | an unsigned text is refused with an error iff it does not decode, and with that error; so is a text that is no signed transaction |
| `Bootstrap.GenerateBootstrapFile` | ethereum/bootstrap.go:43-76 | the outcome is that of the generator function for some iteration order of the map |
| `Bootstrap.ReadsQuantities` | ethereum/bootstrap.go:58-63 | the hex quantities of genesis files are read as their numbers |
| `Bootstrap.ReadsDigits` | ethereum/bootstrap.go:59-63 | behind two unread characters: hex digits of either case, with or without sign |
| `Bootstrap.ReadsNothingElse` | ethereum/bootstrap.go:60-63 | and no other text is read |
| `BootstrapLaws.GenerateCounts` | ethereum/bootstrap.go:43-76 | for any valid keys: it succeeds iff the last text of every address is readable; accounts ascend by characters; a non-zero balance is listed once per key of its address |
| `Sorting.LessIsPrecedes` | ethereum/bootstrap.go:54 | the comparison sorted with is the order of dictionaries: behind a common beginning, the end or the smaller character |
| `BootstrapLaws.GenerateInvalid` | ethereum/bootstrap.go:46-50 | the first key in iteration order that names no address is reported |
| `BootstrapLaws.GenerateUnreadable` | ethereum/bootstrap.go:58-63 | the first unreadable text in account order is reported, or panics when it is shorter than two characters |
| `BootstrapLaws.DuplicatesAreListedTwice` | ethereum/bootstrap.go:43-76 | no account is listed twice iff every address with two keys is given a zero balance |
| `BootstrapLaws.TwoKeysListedTwice` | ethereum/bootstrap.go:46-53 | two keys of one address that differ in case, with any positive balances: the file for each of the two iteration orders |
| `BootstrapLaws.GenerateContents` | ethereum/bootstrap.go:43-76 | with distinct addresses it succeeds iff every balance is readable; then strictly ascending by characters, exactly the non-zero allocations once each, summing to the total |
| `BootstrapLaws.OrderIndependent` | ethereum/bootstrap.go:43-76 | with distinct addresses the outcome does not depend on the iteration order, up to which invalid key is named |
| `BootstrapLaws.DeterministicIff` | ethereum/bootstrap.go:43-76 | the file does not depend on the iteration order iff a key is invalid, some address has no readable text, or the texts of each address read the same |

## Left out

- Calls.FlattenTraces: the accumulator is a value; a Go slice with spare capacity would share its
  backing array between the recursive calls. The program only ever passes an empty slice.
- Calls.Call.UnmarshalJSON: the error return for a text that is no call (ethereum/client.go:687-689).
- JsObjects.Finalize: objects are values, so that the original's `calls` array is overwritten in place is not modelled; nothing reads the original afterwards.
- CallTracer.Tracer.Exit: call objects are values on the stack, so aliasing between JavaScript objects is not modelled; the tracer never holds two references to one that it still changes.
- TraceOps.ApplyTrace: the branch for an empty `to` text (ethereum/client.go:817) is absent; an address text is never empty.
- TraceOps.TraceOps: operation indices are unbounded integers, not int64.
- EndToEnd.EntryOrderAndStatus: an error with an empty message counts as no error, as in the decoder.
- Rewards.MinerRewardExact: floats are modelled by their 53-bit significands; exponents never overflow here.
- Settlement.TransactionRefinement: how much gas is bought up front is a parameter of the reference ledger; the program never sees it.
- Bootstrap.GenerateBootstrapFile: the failures of loading the genesis file and writing the result.
- Construction.ConstructionPayloads: hashing, signer recovery and EIP-55 casing are parameters; operation matching is the contract of the SDK's matcher for the two descriptions used (one debit, one credit, in either order).
- JSON texts: the wire records of strings are the boundary. Whether a text has such a record is an input; encoding/json itself, and geth's own JSON codec for signed transactions, are not part of this model.
- A nil trace, which the program would dereference, and null entries of a `calls` array; the tracer produces neither.
- Preprocess, derive, hash, submit and metadata endpoints, with the suggested fee: short single-step code around remote calls.
- The receipt, raw trace and gas entries of a transaction's metadata, currency decoration and logging.
- JSON-RPC, GraphQL, HTTP and process code, the trace semaphore and batch calls, status, balance, call and mempool endpoints.
- EVM execution itself: the event stream or flat trace is the input, and affordability of its frames a hypothesis of the ledger theorems.
