# Verified model of the IPCI chain's own logic

The IPCI node adds a small amount of logic of its own to Substrate. This project models that
logic in Dafny and proves what it promises:

* **the datalog pallet**, a bounded log for each account kept in a legacy map, a `(start, end)`
  index and a sparse map of cells. `RingBuffer.dfy` has the index and its iterator,
  `AccountLog.dfy` the invariant that ties one account's cells to a log of records,
  `Datalog.dfy` the pallet as a state machine over traces of calls, `DatalogTheorems.dfy` what
  holds after every run, and `Pallet.dfy` the pallet as the source writes it: objects whose
  methods update storage maps in place, with the source's loops. A ghost history in the pallet
  object equates its storage with `Datalog.Run`, so every theorem about runs holds of every
  reachable object.
* **the declared weights** of its calls, against the storage accesses the methods are proved to make;
* **the conversion of balances to election votes and back**;
* **the addresses of the `inspect` command**: hashes, numbers, bytes, and extrinsics within blocks;
* **the mortality period** of transactions signed offchain.

Account ids are natural numbers, records are byte strings, moments are `u64`. The clock reading,
the size hint of a record, the contents of the legacy map at the start, the database prices, the
total issuance, the hash size, the largest block number, the largest extrinsic index and the
libraries' treatment of hexadecimal text are parameters, and every theorem holds for all of their values. The window is any `u64` from 1 up.

The libraries that read hexadecimal text are not in the repository, and its documentation does not
say whether they skip blanks or accept an odd number of digits, nor what bytes they make of such
texts. `Format` therefore carries all of this as parameters (`HexRules`), and no theorem assumes
any of it.

Some laws do not hold without a condition. For each there is a failing input and the exact condition:

* a balance up to the issuance survives the cast to `u64` exactly when the issuance is below
  `u64::MAX` or its remainder by `u64::MAX` is below its quotient (`TruncationBoundary`), and votes
  rank balances correctly under exactly the same condition (`RankingExactlyWithoutTruncation`).
  With an issuance of `2^64` the holder of all of it gets no vote (`SoleHolderGetsNoVote`);
* the text of a block address reads back as that address exactly when it is not a number with as
  many digits as a hash has hexadecimal digits (`BlockRoundTrip`). A format has no such number
  exactly when its numbers stay below `10^(2h - 1)` for hashes of `h` bytes (`BlockRoundTripLaw`).
  With 16-byte hashes and 128-bit numbers block `10^31` reads as a hash (`LongNumberReadsAsHash`);
  with the node's 32 bytes and 32 bits there is none (`NodeBlockRoundTrip`);
* a space is both a separator and a blank. If blanks are skipped, `0x00 00` is taken for raw bytes and not for
  extrinsic 0 of block bytes `0x00`, while `0x00:00` is the latter (`SpaceAfterBytesReadsAsRaw`).
  That the two branches of the extrinsic parser are disjoint, that their order is immaterial, that
  separators are interchangeable and that a tail is ignored therefore hold for all strings exactly
  when blanks are rejected (`BranchesAreDisjoint`, `OrderOfBranchesIsImmaterial`, `SeparatorLaw`,
  `TailLaw`); for each single string the exact condition is proved too, as it is for the round
  trip (`ExtrinsicRoundTrip`). A block given by hash or number, the only ones the documentation
  mentions for extrinsics, is not affected.

`erase` does not clear every cell: one cell outside the live range can stay behind.
`DeadCellCharacterised` says exactly when, and `DeadCellsAreNeverRead` that no later call can tell.

## Model

| member | source | states |
|---|---|---|
| RingBuffer.NextInPlace | pallets/datalog/src/lib.rs:74-79 | computes `(val + 1) mod max`, without overflow of `u64` for any window |
| RingBuffer.RingBufferIndex.Add | pallets/datalog/src/lib.rs:81-88 | returns the old `end` and advances the pair in place; the oldest slot is given up when the ring is full |
| RingBuffer.RingBufferIterator.Next | pallets/datalog/src/lib.rs:100-111 | yields the head of the remaining slots and leaves the tail, with the number of remaining slots going down by one |
| RingBuffer.IterateClosedForm | pallets/datalog/src/lib.rs:90-111 | iteration from any in-range pair ends after `(end - start)` places round the ring, fewer than the window, and the k-th slot is k places after `start` |
| RingBuffer.IterateIsCyclicOrder | pallets/datalog/src/lib.rs:90-111 | the slots are pairwise distinct, are exactly the live ones, and each is followed by its ring successor, the last by `end` |
| RingBuffer.AfterClosedForm | pallets/datalog/src/lib.rs:81-88 | after n records `end` is `n mod W`, `start` is 0 or `(n + 1) mod W`, and `min(n, W - 1)` slots are live, for all n and W |
| AccountLog.PushRepresents | pallets/datalog/src/lib.rs:170-188 | storing a record keeps the invariant: the last W records are in the cells counted back from `end`, and the occupied cells are the live ones and at most one dead one |
| AccountLog.ClearRepresents | pallets/datalog/src/lib.rs:192-203 | erasing keeps the invariant with an empty log; the dead cell stays |
| AccountLog.ContentsAreNewest | pallets/datalog/src/lib.rs:208-215 | reading the cells the iterator visits gives the newest `W - 1` records, oldest first |
| Datalog.RunRepresents | pallets/datalog/src/lib.rs:170-203 | the invariant holds for every account after every trace of accepted and rejected calls by any accounts |
| DatalogTheorems.DataIsNewestRecords | pallets/datalog/src/lib.rs:170-215 | after every run `data(a)` is exactly the last `min(n, W - 1)` of the n records `a` stored since its last erase, oldest first |
| DatalogTheorems.IndexClosedForm | pallets/datalog/src/lib.rs:81-88 | after every run the stored index, or the default where there is none, has the closed form in the number of records since the last erase |
| DatalogTheorems.Occupancy | pallets/datalog/src/lib.rs:170-203 | after every run an account's cells are its live range plus the dead cell, at most W; from the W-th record on the dead cell is the one at `end` |
| DatalogTheorems.EraseLeavesOnlyDeadCell | pallets/datalog/src/lib.rs:192-203 | what an erase leaves behind is exactly the dead cell; index and legacy entry are gone and `data` is empty |
| DatalogTheorems.DeadCellCharacterised | pallets/datalog/src/lib.rs:170-203 | slot d holds a dead cell if and only if some earlier log filled the window with d next to be written and no log since has grown past d |
| DatalogTheorems.OnlyLiveCellsMatter | pallets/datalog/src/lib.rs:170-215 | from any two states that agree on an account's index and live cells, every continuation returns the same data for it |
| DatalogTheorems.DeadCellsAreNeverRead | pallets/datalog/src/lib.rs:170-215 | removing all dead cells and all legacy entries from any state changes no later `data` result |
| DatalogTheorems.DataReadsOnlyWrittenCells | pallets/datalog/src/lib.rs:208-215 | in every reachable state each slot `data` visits holds a cell, so the default item is never read |
| DatalogTheorems.ScrubLeavesLiveCells | pallets/datalog/src/lib.rs:170-215 | in every reachable state removing the dead cells leaves exactly the live ones, and the same data |
| DatalogTheorems.AbsentCellsReadAsDefault | pallets/datalog/src/lib.rs:44-48 | where there are no cells every live slot reads as moment 0 and an empty record |
| DatalogTheorems.EventsOfRun | pallets/datalog/src/lib.rs:170-203 | the exact event list of every run: one event for each accepted call, in order, with its signer, moment and record, and no other |
| DatalogTheorems.EventsReproduceData | pallets/datalog/src/lib.rs:186-187 | replaying only the emitted events through a bounded log gives `data(a)` for every account after every run |
| DatalogTheorems.RejectedExactlyWhenInert | pallets/datalog/src/lib.rs:171-172 | a call changes nothing if and only if its record is too big or its origin is not signed; any other call emits exactly one event, its signer's |
| DatalogTheorems.RejectedCallsLeaveNoTrace | pallets/datalog/src/lib.rs:170-203 | striking all rejected calls from a trace leaves storage and events as they were, and only accepted calls in it |
| DatalogTheorems.AccountsDoNotInterfere | pallets/datalog/src/lib.rs:170-203 | everything filed under an account after a run depends only on what was filed there before and on its own calls |
| DatalogTheorems.InterleavingIsImmaterial | pallets/datalog/src/lib.rs:170-203 | two traces with the same calls of each account in the same order leave the same storage |
| DatalogTheorems.DifferentSignersCommute | pallets/datalog/src/lib.rs:170-203 | calls that do not share a signer commute on storage from every state, as an instance of the above |
| DatalogTheorems.DataIsChronological | pallets/datalog/src/lib.rs:176-184 | if the clock never decreases, the moments in `data(a)` never decrease, after wraps and erases too |
| DatalogTheorems.LegacyOnlyShrinks | pallets/datalog/src/lib.rs:174-194 | a legacy entry keeps its initial value until its account's first accepted call and is absent ever after |
| DatalogPallet.Pallet.StoreRecord | pallets/datalog/src/lib.rs:170-188 | performs exactly one step of the state machine and returns its error; the size error comes before the origin error; two reads (clock included) and three writes when accepted and none when rejected |
| DatalogPallet.Pallet.PushItem | pallets/datalog/src/lib.rs:179-184 | advances the stored index and puts the item at its old `end`, touching nothing else |
| DatalogPallet.Pallet.EraseLog | pallets/datalog/src/lib.rs:192-203 | the method performs exactly one step of the state machine; it writes twice and once more for each live slot |
| DatalogPallet.Pallet.RemoveLiveItems | pallets/datalog/src/lib.rs:198-200 | the loop removes exactly the caller's live cells, one write each, and leaves `start` at `end` |
| DatalogPallet.Pallet.Data | pallets/datalog/src/lib.rs:208-215 | in every reachable pallet the method returns the newest `W - 1` records and changes nothing |
| DatalogPallet.Pallet.ReadLiveItems | pallets/datalog/src/lib.rs:212-214 | the iterator chain collects the items at the live slots in order and leaves `start` at `end` |
| Weights.EraseWritesBounded | pallets/datalog/src/default_weight.rs:15-19 | in every reachable state an erase writes at most `1 + W` times, and exactly that often if and only if the ring is full |
| Weights.EraseWeightCovers | pallets/datalog/src/default_weight.rs:15-19 | for every window but `u64::MAX` the weight is the constant and the price of one read and `1 + W` writes, up to `u64::MAX`, and covers the price of the accesses; for `u64::MAX` it charges no write at all |
| Weights.EraseWeightCoversExactlyBelowMax | pallets/datalog/src/default_weight.rs:18 | it covers them for all prices and all reachable indices if and only if `1 + win` does not wrap around |
| Weights.RecordWeightCovers | pallets/datalog/src/default_weight.rs:9-13 | the weight of `record` is the constant and the price of two reads and three writes, up to `u64::MAX`, and covers that price |
| Vote.TruncationBoundary | node/runtime/src/impls.rs:37-45 | every balance up to the issuance is converted without truncation if and only if the issuance is below `u64::MAX` or its remainder by it is below its quotient |
| Vote.HalfOfIssuanceFits | node/runtime/src/impls.rs:37-45 | a balance of at most half the issuance is never truncated |
| Vote.SoleHolderGetsNoVote | node/runtime/src/impls.rs:42-46 | with an issuance of `2^64` the holder of all of it is converted to zero votes |
| Vote.RoundTrip | node/runtime/src/impls.rs:42-51 | converting and scaling back never overflows and never exceeds the balance, and falls short by less than one factor if and only if the cast did not truncate |
| Vote.ScalingBackIsExact | node/runtime/src/impls.rs:48-51 | scaling back overflows exactly beyond `u128::MAX / factor`, and division by the factor undoes it |
| Vote.Ranking | node/runtime/src/impls.rs:42-46 | below a balance that is not truncated votes keep the order of balances, strictly when they are at least one factor apart |
| Vote.RankingExactlyWithoutTruncation | node/runtime/src/impls.rs:37-46 | votes keep the order of all balances up to the issuance if and only if none of them is truncated, as a condition on the issuance alone |
| Vote.TruncatedTopRanksLast | node/runtime/src/impls.rs:37-46 | otherwise the balance of `u64::MAX` factors gets the largest vote and that of one factor more gets none |
| Vote.IdentityExactlyForSmallIssuance | node/runtime/src/impls.rs:37-51 | the conversion is the identity on all balances if and only if the issuance is at most `u64::MAX`; scaling back then is too |
| Vote.VoteSumConservation | node/runtime/src/impls.rs:37-51 | for every list of stakes within the issuance, summing votes and scaling back never overflows and never creates balance; the loss is the sum of the remainders, and `2^64` votes more if and only if a stake is truncated, which at most one is |
| Vote.VoteSumLossWithoutMajority | node/runtime/src/impls.rs:37-51 | if no stake exceeds half the issuance, n stakes together lose at most `n * (factor - 1)` |
| Digits.AccumulateIsBoundedValue | node/inspect/src/lib.rs:231-234 | the overflow-checked number parser computes the unbounded decimal value and fails exactly beyond the bound |
| Digits.IntegerLanguage | node/inspect/src/lib.rs:231-234 | exactly which strings are numbers, and of what value |
| Digits.HexLanguage | node/inspect/src/lib.rs:236-242 | decoding digits gives some bytes if and only if their lower case is the encoding of those bytes |
| Digits.PairsAreReadable | node/inspect/src/lib.rs:236-242 | plain pairs of digits are read under every choice about blanks and odd numbers of digits, and nothing else is under the strict one |
| Digits.DecimalDigits | node/inspect/src/lib.rs:231-234 | which characters are decimal digits, and what each is worth |
| Digits.HexDigits | node/inspect/src/lib.rs:236-242 | which digit is written for each value, and which two characters are read as it |
| Digits.Characters | node/inspect/src/lib.rs:236-242 | which characters are hexadecimal digits and which are blanks |
| Digits.HexExample | node/inspect/src/lib.rs:293-303 | the repository's example pins down what a hexadecimal digit is worth |
| Address.BlockLanguage | node/inspect/src/lib.rs:225-243 | exactly which strings are which block address, for every choice the libraries leave and whatever bytes they make of irregular text; all others are no block |
| Address.BlocksAreInFormat | node/inspect/src/lib.rs:225-243 | a block that is read is within the format's sizes, but for the length of an irregular hash |
| Address.HashTextIsRead | node/inspect/src/lib.rs:226-229 | a text is accepted as a hash if and only if it has as many hexadecimal digits as a hash and otherwise only blanks, where they are skipped |
| Address.HashNumberAmbiguity | node/inspect/src/lib.rs:226-234 | a string is both hash and number if and only if it is all decimal, as long as a hash, and of a small enough value; the hash wins |
| Address.BytesTextCharacters | node/inspect/src/lib.rs:236-242 | a text is accepted as bytes if and only if it starts with `0x` and goes on with hexadecimal digits, and blanks where they are skipped, to the right number, all written out as characters |
| Address.BytesAreUnambiguous | node/inspect/src/lib.rs:225-243 | a string of the bytes form is neither a hash nor a number |
| Address.BlockRoundTrip | node/inspect/src/cli.rs:45-53 | the documented text of an address reads back as it, if and only if it is not a number as long as a hash |
| Address.BlockRoundTripLaw | node/inspect/src/cli.rs:45-53 | all addresses of a format read back if and only if its largest number has fewer digits than a hash |
| Address.LongNumberReadsAsHash | node/inspect/src/lib.rs:226-234 | with 16-byte hashes and 128-bit numbers the number `10^31` is read as a hash |
| Address.NodeBlockRoundTrip | node/inspect/src/cli.rs:45-53 | with 32-byte hashes and `u32` numbers every address reads back |
| Address.SpaceAfterBytesReadsAsRaw | node/inspect/src/lib.rs:260-278 | `0x00 00` is taken by the raw branch if blanks are skipped and is block and index if not; `0x00:00` is block and index either way |
| Address.BranchesAreDisjoint | node/inspect/src/lib.rs:258-278 | the two branches accept disjoint sets of strings if and only if the bytes form rejects blanks |
| Address.OrderOfBranchesMatters | node/inspect/src/lib.rs:258-278 | trying the block branch first gives another result exactly for a text of the bytes form whose first piece is of the bytes form and whose second is an index; such a text contains a space |
| Address.OrderOfBranchesIsImmaterial | node/inspect/src/lib.rs:258-278 | the order makes no difference on any string, errors included, if and only if the bytes form rejects blanks |
| Address.SeparatorCharacters | node/inspect/src/lib.rs:265 | a text is split at a dot, a colon and a space, and at no other character |
| Address.ExtrinsicLanguage | node/inspect/src/lib.rs:258-278 | exactly which strings are which extrinsic address: raw bytes, whatever the library makes of irregular text, or else block, one of the three characters, index and an ignored rest |
| Address.ExtrinsicResults | node/inspect/src/lib.rs:264-277 | the result of every string that is not of the bytes form, errors included: without a separator the index is missing if the whole is a block; with one the first piece must be a block, looked at first, and the second an index |
| Address.EveryTextHasPieces | node/inspect/src/lib.rs:264-275 | a string has a separator if and only if it has a first and a second piece, so one of those cases always applies |
| Address.ExtrinsicRoundTrip | node/inspect/src/cli.rs:55-62 | block, any of the three separators, index and any further pieces read back as that block and index, if and only if the block is not a number as long as a hash and the whole is not a bytes block, a space, and only digits and skipped blanks after it |
| Address.NodeExtrinsicRoundTrip | node/inspect/src/cli.rs:55-62 | with the node's sizes every block and `u64` index read back for each separator, except a bytes block before a space if blanks are skipped and the digits come out even or need not |
| Address.RawRoundTrip | node/inspect/src/cli.rs:55-62 | `0x` and the encoding of any bytes read back as those bytes |
| Address.TailIsIgnored | node/inspect/src/lib.rs:264-277 | once a string has a separator, appending another and any text keeps the result if and only if neither text is of the bytes form, or both are and the library makes the same bytes of them |
| Address.TailIsSafelyIgnored | node/inspect/src/lib.rs:264-277 | without `0x`, after a dot or a colon, or where blanks are rejected, the tail is always ignored |
| Address.TailLaw | node/inspect/src/lib.rs:264-277 | a tail changes no result for any string if and only if the bytes form rejects blanks |
| Address.SeparatorsAreInterchangeable | node/inspect/src/lib.rs:264-277 | changing separators into others keeps the result if and only if neither text is of the bytes form or they are the same text |
| Address.SeparatorLaw | node/inspect/src/lib.rs:264-277 | it keeps the result for all strings if and only if the bytes form rejects blanks |
| Address.BlockExamples | node/inspect/src/lib.rs:290-303 | the repository's examples of a number and of bytes |
| Address.ExtrinsicExamples | node/inspect/src/lib.rs:311-329 | the repository's examples of a missing index and of a space as separator |
| Address.InvalidIndexExample | node/inspect/src/lib.rs:270-275 | `0:x` has an invalid index |
| Address.NoSeparatorExample | node/inspect/src/lib.rs:264-269 | `0-0` is one piece and no block |
| Period.PeriodIsLargestPowerBelow | node/runtime/src/lib.rs:431-435 | the period is a power of two p with `p < c <= 2p`, the largest power below c, if and only if c is from 2 to `2^31`; below that it is 0 and above it is 2 |

## Left out

- A window of 0, or one that changes between calls: the runtime fixes it at 128 (node/runtime/src/lib.rs:530), and the ring is defined for one window of at least 1.
- The `RecordSent` event: declared but never emitted.
- Events as storage, SCALE encoding, storage hashers and signatures: host behaviour; the event log is a sequence, storage accesses of the host itself are not counted.
- The size hint of a record: library behaviour, an input of the model.
- Overflow of `1 + win` in a debug build, where it panics; `EraseWeight` models the wrap-around of a release build. The cost of computation is the declared constant and is not modelled.
- ToBalance: an overflowing multiplication yields `None`, which stands for the panic of a debug build and the wrap-around of a release build alike; it is proved not to happen for votes converted from balances.
- FromHex: the libraries' code is not part of this model. Whether it skips blanks and accepts an odd number of digits are parameters, and so is the function from such irregular texts to bytes; that function is arbitrary, so nothing is promised of its value.
- ParseHash: likewise for a hash with blanks in it; that the library's value has the length of a hash is not stated.
- ParseInteger: follows the standard library's unsigned parsers, with an optional plus sign and any number of leading zeros.
- Error texts: only the kind of error is modelled, not its message.
- `Inspector`, its printers and the chain database, command dispatch, and the `Author` hook: formatting, I/O and single calls into other pallets.
- `Era::mortal` and the current block number: library behaviour after the period is chosen.
- Runtime configuration, constants, fees, RPC, the executor and service wiring: single expressions and forwarding.
