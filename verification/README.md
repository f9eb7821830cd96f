# Verification model of a PIVX-family node

This project models the parts of the node whose correctness rests on invariants that the C++ code relies on but never
checks, and proves them in Dafny 4.11. `dafny verify dfyconfig.toml` checks everything.

| component | files | what is proved |
|---|---|---|
| Layered cache of unspent coins | `Coins`, `CoinsCache`, `CoinsRuns`, `CoinsUndo`, `CoinsOutputs`, `CoinsConnect` | any stack of caches with DIRTY and FRESH flags means one flat map per layer; connecting and disconnecting blocks |
| Serialized coins | `VarInt`, `Compressor`, `CoinsCodec` | variable-length integers, amount and script compression and the availability mask are lossless |
| Address manager | `AddrBook`, `AddrMeaning`, `AddrMan`, `AddrManCheck`, `AddrCodec`, `AddrRoundTrip`, `AddrLegacy`, `AddrStream` | five indexes and two bucket tables stay consistent in every run; `Check_` tells exactly when they are; serialising loses nothing; what streams of other versions lose |
| Coin selection | `Denominations`, `CoinSelection` | greedy payment is complete and minimal on a divisibility chain; selection covers its target |
| Check queue | `CheckQueue`, `CheckQueueControl` | right answers and progress in every interleaving of master and workers |
| Multi-limb integers | `Powers`, `Limbs`, `LimbBits`, `ArithUint`, `Compact` | limb loops compute modular arithmetic, shifts and exact division; the compact form |
| Base58 | `BasePowers`, `Base58` | buffers suffice; encoding and decoding are inverse |
| Active chain | `Chain` | skip list, `SetTip`, `FindFork`, locators |
| Accumulator checkpoints | `Accumulators` | every mint is accumulated exactly once |
| Locked pages | `LockedPages` | page counters count live ranges |

How the source is represented:

- Classes with mutable fields are classes; arrays are arrays (`vvNew`, `vvTried`, the limbs, the digit buffers); maps
  and vectors that methods change are fields of type `map` and `seq`. Loops are loops, proved against functions over
  values.
- Transaction ids, hashes, addresses and keys are naturals of which only equality matters. Hash functions, random draws,
  the clock, disk reads and shutdown requests are parameters; nothing is assumed about them unless a contract says so.
- A null output is a constructor of its own (the source marks it by value -1). A pruned entry and an absent one have the
  same meaning. Versions and times are integers with a sign; heights are natural numbers.
- `nRandomPos` is a map beside the entries instead of a field inside them. Bucket tables are arrays, mirrored by ghost
  maps of their occupied slots.
- Denominations are positions in their list, -1 standing for `ZQ_ERROR`. Everything is proved for any strictly
  increasing list in which each value divides the next, and the source's list is one. The do-while loops whose body
  repeats the loop condition are while loops.
- Pages are numbered by base address divided by page size. Block index links never change after a block is entered.

The code and its comments disagree in places, and the model follows the code: the comment on variable-length integers
lists digits of other numbers for 16511 and 65535 (`VarInt.MisprintedExamples`), and the example in src/coins.h:41-54 has
the header code of a format without the coinstake bit (`CoinsCodec.RecordExample`).

What turned out to be false of the code, each with its exact condition and an input:

- Disconnecting a block does not always undo connecting it: `undo.fCoinStake` is never copied back
  (src/main.cpp:2691-2698). It does if and only if the block emptied no coinstake
  (`CoinsUndo.DisconnectBlockRestoresExactly`; examples `Coins.CoinStakeMarkLost` and `CoinsUndo.BlockLosesMark`).
- `Flush` of a cache that never read or set its best block writes 0 over that of a parent cache. The best block survives
  if and only if the cache knows one, or the base is the store, or has none itself, or has the same as the layers below
  it (`CoinsCache.FlushKeepsBest` and `CoinsCache.CoinsViewCache.Flush`; examples `CoinsCache.FlushForgets` and
  `CoinsRuns.ForgottenBest`). Runs without such a flush are right about best blocks (`CoinsRuns.BestRunAgrees`).
- Serialized coins come back with their version if and only if it is not negative: of a negative one only seven bits are
  written (`CoinsCodec.CodecRoundTrip`; example `CoinsCodec.VersionLost`).
- `Good_` breaks the invariant if and only if it finds an entry and the time is not positive, since 0 means "never
  succeeded" (`AddrBook.GoodKeepsExactly`; example `AddrBook.GoodAtZero`); `Attempt_` if and only if it finds one and
  the time is negative (`AddrMan.AddrMan.Attempt_`; example `AddrBook.AttemptBeforeZero`).
- `Add_` answers true for every unknown address, even when it drops it again: it is kept if and only if its slot is free
  or may be overwritten (`AddrBook.AddKeepsExactly`; example `AddrBook.AddedAndDropped`).
- `Check_` does not look for stale keys of the indexes: the invariant is what it accepts and the absence of these
  (`AddrManCheck.AcceptedIffValid`; example `AddrManCheck.AcceptedInvalid`, which no run reaches by `AddrManCheck.Run`).
- `a *= a` gives 0, since the receiver is cleared before the argument is read: aliasing is the exact condition
  (`ArithUint.BaseUint.MulAssign`; example `ArithUint.ThreeTimesItself`).
- `calculateChange` returns 0, which its caller takes for failure, for some targets that the held coins cover: exactly
  when the branch taken leaves less than the lowest value over (`CoinSelection.ChoiceFails`; example
  `CoinSelection.FiveCentsFail`). The target can then be paid exactly after rounding up to a multiple of the lowest
  value (`CoinSelection.FailsOnlyNear`), a condition that is necessary and not sufficient
  (`CoinSelection.NearButChosen`).
- `getSpends` selects a mint twice if and only if more are wanted than there are (`CoinSelection.SpendsDistinct`;
  example `CoinSelection.SpentTwice`).
- A controller of the check queue that adds checks after its Wait is destroyed without waiting for them, and the next
  controller's assert can fail (`CheckQueueControl.LateAddFails`); otherwise it holds
  (`CheckQueueControl.ControllersFindIdle`).

## Model

| member | source | states |
|---|---|---|
| Coins.TrimNullsUnique | src/coins.h:120-126 | The list that Cleanup leaves is the only prefix that drops nothing but nulls and does not end in one |
| Coins.CleanupInPlace | src/coins.h:120-126 | The loop of Cleanup leaves exactly that prefix |
| Coins.SpendThenRestore | src/coins.cpp:37-53 | Spending an output of clean coins and restoring it from the undo record gives the same coins, whatever pruned coins stand in for removed ones; a transaction spent to its last output loses its coinstake mark |
| Coins.SpendThenRestoreExact | src/main.cpp:2691-2705 | Restoring what was spent gives the same coins if and only if they were not a coinstake that lost its last output |
| Coins.CoinStakeMarkLost | src/main.cpp:2691-2698 | A concrete coinstake whose mark is lost, because undo.fCoinStake is never read |
| CoinsCache.WritableStep | src/coins.cpp:166-201 | Writing or skipping one entry of a batch keeps the meaning that the rest of the batch has to complete |
| CoinsCache.CoinsViewDB.BatchWrite | src/txdb.cpp:58-80 | The store, after the dirty entries of a cache are written, means what the cache meant; the best block changes only if one is given |
| CoinsCache.CoinsViewCache.constructor | src/coins.cpp:80 | A cache over any valid view means what that view means, with the flag invariant |
| CoinsCache.CoinsViewCache.Views | src/coins.cpp:70-86 | What every layer of a stack means, down to the store |
| CoinsCache.CoinsViewCache.FetchCoins | src/coins.cpp:87-103 | Copying a parent's coins, FRESH when pruned, changes no layer's meaning; absent means absent in the flat map |
| CoinsCache.CoinsViewCache.GetCoins | src/coins.cpp:105-113 | The answer is what the flat map says, a pruned entry counting as absent |
| CoinsCache.CoinsViewCache.HaveCoins | src/coins.cpp:144-152 | True exactly when the flat map has the transaction, although only vout.empty() is looked at |
| CoinsCache.CoinsViewCache.GetBestBlock | src/coins.cpp:154-159 | The best block of the first layer from the top that knows one, kept after the first call |
| CoinsCache.CoinsViewCache.Touch | src/coins.cpp:115-132 | The entry made ready for modification is DIRTY, clean, and means what the view meant |
| CoinsCache.CoinsViewCache.ModifyCoins | src/coins.cpp:115-132 | A modifier over an entry that means what the view means; every flag stays right on every layer |
| CoinsCache.CoinsViewCache.WriteEntry | src/coins.cpp:166-196 | One dirty entry of a child, through every branch (skip, move, erase, overwrite): the view then means the old map with that entry, and the assert on FRESH never fails |
| CoinsCache.CoinsViewCache.BatchWrite | src/coins.cpp:166-201 | After it the view means exactly what the child over it meant, and the best block is the child's, even when that is the zero of a child that never knew one |
| CoinsCache.CoinsViewCache.Flush | src/coins.cpp:203-208 | The base afterwards means what this view meant and gets its best block; the best block that the view answered survives if and only if the view knew it itself, or the base had none to lose |
| CoinsCache.FlushKeepsBest | src/coins.cpp:154-208 | Of any stack of best-block fields: after a flush both top layers answer what the top answered, and the others what they did, if and only if that condition holds |
| CoinsCache.FlushForgets | src/coins.cpp:154-208 | Three layers 0, 7, 5 that answer 7, 7, 5 answer 5, 5, 5 after a flush |
| CoinsCache.CoinsModifier.constructor | src/coins.cpp:268-272 | Binding a modifier keeps the cache valid with that entry open |
| CoinsCache.CoinsModifier.Write | src/coins.cpp:268-282 | Changing the open coins changes the top flat map at that transaction and no layer below |
| CoinsCache.CoinsModifier.Close | src/coins.cpp:274-282 | The destructor's cleanup, and its erasure of a FRESH pruned entry, change no meaning |
| CoinsRuns.Step | src/coins.cpp:87-208 | One get, have, modify, flush, best-block, set-best-block, new-layer or dropped-layer step over a stack answers, means and remembers what one step over flat maps and best-block fields does |
| CoinsRuns.Run | src/coins.cpp:87-208 | Over any stack and any run on the top layer, every answer, every layer's meaning and every best-block field are those of the flat maps |
| CoinsRuns.BestStepExact | src/coins.cpp:154-208 | A step changes the best blocks that the layers answer as callers expect if and only if it is not a flush that forgets one |
| CoinsRuns.BestRunAgrees | src/coins.cpp:154-208 | In every run without such a flush every layer answers, at every moment, the best block last set on it or handed down to it |
| CoinsRuns.ForgottenBest | src/coins.cpp:154-208 | A run that forgets: best block 7 is set, a new cache is put on top, flushed and dropped, and 0 is answered |
| CoinsUndo.UndoAllInverts | src/main.cpp:2646-2708 | Undoing the inputs of a transaction, last first, restores the map and finds the undo data clean, except for coinstake marks of emptied transactions |
| CoinsUndo.DisconnectAfterConnect | src/main.cpp:2626-2708 | Disconnecting a just connected transaction: which map comes back, and when the output check passes |
| CoinsUndo.DisconnectRestoresExactly | src/main.cpp:2626-2708 | Disconnect undoes connect if and only if the transaction emptied no coinstake, and reports a clean undo in both cases |
| CoinsUndo.DisconnectBlockInverts | src/main.cpp:2626-2708 | Disconnecting a block from the end restores the map before it, but for coinstake marks, starting from any map that already lacks some |
| CoinsUndo.DisconnectBlockRestoresExactly | src/main.cpp:2626-2708 | A block comes off leaving the very same map if and only if it emptied no coinstake that was there before it |
| CoinsUndo.BlockLosesMark | src/main.cpp:2691-2698 | A concrete block, of one transaction that spends the only output of a coinstake, that does not come off exactly |
| CoinsUndo.CleanDetermined | src/main.cpp:2691-2705 | Undo records that fit determine the map: no output goes into a pruned entry without metadata |
| CoinsOutputs.SpendAllIs | src/main.cpp:2413-2421 | Inputs can be spent in order if and only if each is an unspent output and none is named twice; then exactly these outputs are gone, entries without outputs left are gone too, and each record holds its output, with the metadata in the record that empties the transaction |
| CoinsOutputs.ConnectIs | src/main.cpp:2410-2427 | Connecting is possible if and only if the inputs can be spent, and then does what UpdateCoins promises |
| CoinsOutputs.ConnectedUnique | src/main.cpp:2410-2427 | That description fits one map and one list of records only |
| CoinsOutputs.UndoAllClean | src/main.cpp:2691-2705 | Undoing inputs is clean if and only if every record finds its place free and says of metadata what is there |
| CoinsOutputs.UndoAllOutputs | src/main.cpp:2691-2705 | Afterwards every restored output is at its place and no other output has changed |
| CoinsOutputs.OutputsMatchIs | src/main.cpp:2636-2644 | The output check passes if and only if the map holds exactly the outputs that connecting adds, with their flags, height and version |
| CoinsOutputs.DisconnectIs | src/main.cpp:2626-2708 | Disconnecting is clean if and only if both hold |
| CoinsConnect.SpendInOrder | src/main.cpp:2413-2421 | The input loop of UpdateCoins over the cache yields the flat map and the undo records of spending all inputs |
| CoinsConnect.UpdateCoins | src/main.cpp:2410-2427 | Over the cache, given that the inputs are unspent and each named once: every input of a transaction that is neither coinbase nor zerocoin spend is spent, the undo records say what they were, every output that can be spent is there under the transaction's own flags, height and version, and nothing else has changed |
| CoinsConnect.RestoreInputs | src/main.cpp:2646-2708 | The undo loop over the cache: clean exactly when the flat undo is, and with its map whenever the undo data determines one, in particular when it is clean |
| CoinsConnect.RemoveOutputs | src/main.cpp:2626-2644 | The output check over the cache answers as on the flat map, and the outputs are gone |
| CoinsConnect.DisconnectTransaction | src/main.cpp:2626-2708 | DisconnectBlock for one transaction over the cache: it fails exactly when the number of undo records is wrong; it is clean exactly when the outputs are found as they were added and every record fits; the outputs spent are then back and those added gone |
| VarInt.ReadWrite | src/serialize.h:499-533 | Reading what was written gives the number back and stops after it |
| VarInt.WriteRead | src/serialize.h:468-478 | Every integer has exactly one encoding: what can be read is what would be written |
| VarInt.WriteVarInt | src/serialize.h:499-514 | The ten-byte buffer suffices for every 64-bit number, and the loops write its encoding, that of n mod 128 for a negative n |
| VarInt.WriteMeans | src/serialize.h:468-478 | All digits but the last have bit 128 set, and the digits are worth the number: the last digit and 128^i times one more than each digit i places before it |
| VarInt.ShortExamples | src/serialize.h:483-488 | The digits of 0 to 16511 where their number changes |
| VarInt.LongExamples | src/serialize.h:483-488 | The digits of 16512, 65535 and 2^32 |
| VarInt.MisprintedExamples | src/serialize.h:486-487 | The digits that the comment lists for 16511 and 65535 are those of 32895 and 65407 |
| Compressor.StripTensUnique | src/compressor.cpp:137-154 | Stripping finds the only exponent up to 9 and mantissa not ending in 0 |
| Compressor.DecompressCompress | src/compressor.cpp:137-180 | Decompressing a compressed amount gives it back, for every amount |
| Compressor.CompressDecompress | src/compressor.cpp:137-180 | Compressing a decompressed number gives it back: the two are inverse bijections on the naturals |
| Compressor.CompressedForm | src/compressor.cpp:128-135 | The compact form of (10 n + d) * 10^e is 1 + 10 (9 n + d - 1) + e, and of n * 10^9 is 1 + 10 (n - 1) + 9 |
| Compressor.CompressedExamples | src/test/compress_tests.cpp:42-47 | The amounts of 0, 1, a hundredth of a coin, 1, 50 and 21 million coins |
| Compressor.CompressedSmall | src/compressor.cpp:137-154 | A compressed amount is at most nine times the amount plus ten, so supply-limited amounts stay below 2^64 |
| Compressor.CompressAmountLoop | src/compressor.cpp:137-154 | For every 64-bit number the loop computes it modulo 2^64, and exactly up to the supply limit of src/chainparams.cpp:139 |
| Compressor.DecompressAmountLoop | src/compressor.cpp:156-180 | For every 64-bit number the loops compute the inverse, modulo 2^64 |
| Compressor.DecompressCompressScript | src/compressor.cpp:43-126 | A script with a special form comes back from its 20 or 32 bytes, given an invertible full-key decompression |
| Compressor.SpecialForms | src/compressor.cpp:43-85 | Payments to a key hash and to a script hash compress to type 0 or 1 and the 20 bytes of the hash, payments to a key to type 2 to 5 and the 32 bytes of its first coordinate, full keys only if valid |
| Compressor.ReadSpecialForms | src/compressor.cpp:87-126 | What is read for each of the six types; a key that cannot be decompressed leaves the script empty |
| Compressor.ReadOverlong | src/compressor.h:85-101 | A plain script over 10000 bytes is read as a single OP_RETURN |
| Compressor.ReadWriteScript | src/compressor.h:69-103 | Every script comes back from its framing; one over 10000 bytes comes back as OP_RETURN |
| Compressor.ReadWriteOutput | src/compressor.h:120-133 | An output comes back from its compressed amount and script |
| CoinsCodec.ByteIsZero | src/coins.cpp:18-35 | The inner loop of CalcMaskSize answers whether a mask byte is zero |
| CoinsCodec.CalcMaskSize | src/coins.cpp:18-35 | The loops count the mask bytes up to the last that is not zero, and those that are not zero |
| CoinsCodec.MaskByteBit | src/coins.h:212-218 | Bit i of mask byte b, from the lowest, says whether output 2 + 8 b + i is there |
| CoinsCodec.MaskSizeIs | src/coins.cpp:18-35 | The mask ends with the last byte that has an output to show |
| CoinsCodec.MaskCodeIs | src/coins.cpp:18-35 | The count in the header code is that of the bytes that have an output to show |
| CoinsCodec.CodeFields | src/coins.h:207 | The header code has coinbase, coinstake, first and second output in its four lowest bits, and above them the count of mask bytes, less one if neither of the two outputs is there |
| CoinsCodec.RecordExample | src/coins.h:41-54 | All bytes of a record with one output, the example of the comment with the header code that the code writes |
| CoinsCodec.SomethingMasked | src/coins.h:206-207 | If neither of the first two outputs is left, the mask is not empty, so the subtraction in the header code does not wrap and the assert holds |
| CoinsCodec.ReadMaskStops | src/coins.h:241-251 | The reader's loop over non-zero bytes stops exactly where the writer's mask ends, whatever follows |
| CoinsCodec.UnpackedMask | src/coins.h:212-218 | Bit i of the mask says whether output i + 2 is there |
| CoinsCodec.ReadWriteOutputs | src/coins.h:219-223 | One output per bit gives the outputs back, each at its own index |
| CoinsCodec.UnserializeSerialize | src/coins.h:199-263 | Reading back serialized unpruned coins gives the cleaned-up coins, overlong scripts replaced, a negative version modulo 128 |
| CoinsCodec.CodecRoundTrip | src/coins.h:199-263 | With scripts of at most 10000 bytes, Unserialize(Serialize(c)) stops after what was written and is Cleanup(c), same flags and height, if and only if the version is not negative |
| CoinsCodec.VersionLost | src/coins.h:199-263 | Concrete coins of version -1 come back with version 127 |
| CoinsCodec.SerializeLoop | src/coins.h:199-226 | The writing loops produce that form, whatever the sign of the version |
| CoinsCodec.UnserializeLoop | src/coins.h:229-263 | The reading loops answer as specified on every byte string, malformed ones included |
| AddrBook.ClearNewKeeps | src/addrman.cpp:135-148 | Emptying a new slot keeps the invariant, erasing the entry whose last reference it was |
| AddrBook.EvictKeeps | src/addrman.cpp:166-189 | Moving the holder of a tried slot back to its new slot, over whoever is there, keeps the invariant |
| AddrBook.MakeTriedKeeps | src/addrman.cpp:150-196 | MakeTried is possible for every untried entry of a consistent book and keeps the invariant if the entry has succeeded |
| AddrBook.MakeTriedLoses | src/addrman.cpp:150-196 | MakeTried loses at most one entry: the one whose only reference was at the evicted entry's place |
| AddrBook.GoodKeepsExactly | src/addrman.cpp:198-245 | Good_ keeps the invariant if and only if the entry is unknown or the time of success is positive |
| AddrBook.GoodAtZero | src/addrman.cpp:198-245 | A concrete book with one entry that Good_ at time 0 makes inconsistent |
| AddrBook.AttemptBeforeZero | src/addrman.cpp:315-332 | A concrete book that counting an attempt at time -1 makes inconsistent |
| AddrBook.PlaceKeeps | src/addrman.cpp:288-310 | The end of Add_ keeps the invariant through all its branches |
| AddrBook.AddKeeps | src/addrman.cpp:247-313 | Add_ keeps the invariant |
| AddrBook.AddKeepsExactly | src/addrman.cpp:247-313 | For an unknown address Add_ always answers true, but keeps the address if and only if its slot is free or may be overwritten |
| AddrBook.AddedAndDropped | src/addrman.cpp:247-313 | A concrete book and address for which Add_ answers true and drops the address |
| AddrBook.AttemptKeepsExactly | src/addrman.cpp:315-332 | Counting an attempt keeps the invariant if and only if there is no matching entry or the time is not negative |
| AddrMeaning.WorthyIs | src/addrman.cpp:34-53 | An entry is worth keeping if tried within a minute; or seen within 30 days and not from over ten minutes ahead, with a success or fewer than 3 attempts, and a success within 7 days or fewer than 10 attempts |
| AddrMeaning.RefreshedIs | src/addrman.cpp:256-264 | A known entry announced again: its time is refreshed exactly if it lags by more than an hour, or a day if not seen today, and the penalty; services are joined; nothing else changes |
| AddrMeaning.NotFarBehind | src/addrman.cpp:256-261 | Afterwards a known time is no further behind than that, and is the old one or the announced one less the penalty |
| AddrMeaning.PlaceIs | src/addrman.cpp:288-310 | The end of Add_ takes the slot exactly if it is free, or its holder is not worth keeping, or the newcomer has no slot and the holder has others; the holder then loses one reference or is gone, and nothing else changes; refused, an entry without any slot is erased |
| AddrMeaning.AddIs | src/addrman.cpp:247-313 | Add_ entry by entry and slot by slot, for addresses that are not routable, not known and known |
| AddrMeaning.GoodIs | src/addrman.cpp:198-245 | Good_ entry by entry and slot by slot: only the entry of exactly this address and port is marked; untried, it moves to its tried slot out of all new slots, and whoever held that is untried again in its own new slot |
| AddrMan.AddrMan.constructor | src/addrman.h:429-452 | An empty manager is consistent |
| AddrMan.AddrMan.SwapRandom | src/addrman.cpp:101-119 | Swaps two positions of vRandom and keeps nRandomPos its inverse |
| AddrMan.AddrMan.Delete | src/addrman.cpp:121-133 | Erases an unreferenced entry from every index; its asserts hold |
| AddrMan.AddrMan.ClearNew | src/addrman.cpp:135-148 | The arrays and indexes change as the book does; its assert holds |
| AddrMan.AddrMan.LeaveNewBuckets | src/addrman.cpp:152-164 | The loop over all 1024 buckets leaves the entry nowhere in the new table, with reference count 0 |
| AddrMan.AddrMan.EvictFrom | src/addrman.cpp:166-189 | The eviction branch with its bookkeeping of nNew and nTried |
| AddrMan.AddrMan.MakeTried | src/addrman.cpp:150-196 | Arrays and indexes end as the specified book; its asserts hold |
| AddrMan.AddrMan.FindNewBucket | src/addrman.cpp:227-239 | The search from a random bucket looks at every bucket: -1 only if no slot holds the entry |
| AddrMan.AddrMan.Good_ | src/addrman.cpp:198-245 | The whole invariant holds afterwards if and only if the entry is unknown or nTime is positive; every entry and slot are as AddrMeaning.GoodIs says, and the bail-out at line 238 is never taken |
| AddrMan.AddrMan.Create | src/addrman.cpp:89-99 | Enters an address under a new id in every index |
| AddrMan.AddrMan.AddKnown | src/addrman.cpp:256-284 | The time, services and all other fields of the known entry afterwards, and exactly when it may take another slot: untried, fewer than 8 references, an announced time that is news, and one draw in 2^n |
| AddrMan.AddrMan.PlaceNew | src/addrman.cpp:288-310 | Finds the entry a slot, overwriting, or deletes it again |
| AddrMan.AddrMan.Add_ | src/addrman.cpp:247-313 | Every index and table is consistent afterwards; every entry and slot, and the answer, are as AddrMeaning.AddIs says |
| AddrMan.AddrMan.Attempt_ | src/addrman.cpp:315-332 | Sets the last try and adds one attempt to the entry of exactly this address and port, and changes nothing else; the invariant holds afterwards if and only if there is none or nTime is not negative |
| AddrMan.AddrMan.Connected_ | src/addrman.cpp:476-494 | Changes only the time last seen, cut to 32 bits, at most every 20 minutes, and keeps the invariant |
| AddrMan.AddrMan.GetAddr_ | src/addrman.cpp:455-474 | Returns as many entries as wanted, 23 in 100 and at most 2500, or as there are worth keeping, all worth keeping, all different, and keeps the invariant |
| AddrManCheck.CheckEntry | src/addrman.cpp:387-411 | One iteration of the loop over the entries answers 0 exactly for an entry in order |
| AddrManCheck.CheckTried | src/addrman.cpp:417-429 | The scan of the tried table finds an error exactly when the table is wrong |
| AddrManCheck.CheckNew | src/addrman.cpp:431-447 | The scan of the new table finds an error exactly when a slot or a reference count is wrong |
| AddrManCheck.Check_ | src/addrman.cpp:378-452 | Answers 0 if and only if the key is not null and the manager is accepted, a condition stated without the scan |
| AddrManCheck.ValidAccepted | src/addrman.cpp:378-452 | The invariant kept by the operations is accepted by Check_ |
| AddrManCheck.AcceptedIffValid | src/addrman.cpp:378-452 | The states that satisfy the invariant are exactly those that Check_ accepts and in which no index has stale keys |
| AddrManCheck.AcceptedInvalid | src/addrman.cpp:378-452 | A concrete state that Check_ accepts and that violates the invariant: mapAddr has a key without an entry |
| AddrManCheck.Run | src/addrman.cpp:89-494 | In every run of Add_, Good_ (after time 0), Attempt_ (from time 0 on), Connected_ and GetAddr_ with a key that is not null the invariant holds, and Check_ then answers 0 |
| AddrRoundTrip.CountsWritten | src/addrman.h:286-313 | The entries written are exactly as many as nNew and nTried say |
| AddrRoundTrip.NameInOrder | src/addrman.h:295-313 | Every entry of a consistent manager is written once, new ones before tried ones, at the place of its new id |
| AddrRoundTrip.OrderNamed | src/addrman.h:295-313 | The new ids are a bijection onto 0 to the number of entries |
| AddrRoundTrip.TriedEntryRead | src/addrman.h:373-389 | Reading a tried entry of a consistent manager never finds its slot taken |
| AddrRoundTrip.IndexRead | src/addrman.h:392-408 | Reading one index always finds its slot free and the reference count below 8 |
| AddrRoundTrip.AllKept | src/addrman.h:411-420 | No entry is pruned after reading |
| AddrRoundTrip.RoundTrip | src/addrman.h:277-422 | Unserialize(Serialize(m)) is m with its ids renumbered and last tries forgotten, for every consistent manager and key: nothing is lost to collisions |
| AddrRoundTrip.EntriesKept | src/addrman.h:277-422 | Renumbering keeps every entry, exactly once, with all fields but nLastTry |
| AddrRoundTrip.PlacesKept | src/addrman.h:277-422 | Renumbering keeps every new slot, tried slot and address with its entry, and both counts |
| AddrRoundTrip.RenumberedConsistent | src/addrman.h:277-422 | What is read back satisfies the whole invariant again |
| AddrLegacy.HeaderIs | src/addrman.h:281-291 | A stream starts with version 1, key size 32, the key, both counts and the number of new buckets with bit 30 flipped |
| AddrLegacy.LegacyRead | src/addrman.h:333-422 | Any stream of another version or number of new buckets: of the new entries exactly those are kept, with one reference at their default place, whose default place no entry before them has; and no other new slot is taken |
| AddrLegacy.TriedRead | src/addrman.h:373-389 | Any tried entries: the first with each tried slot is kept there under the next id, the others are lost and no longer counted |
| AddrLegacy.BucketsIgnored | src/addrman.h:392-408 | In such a stream the indices in the buckets change nothing |
| AddrLegacy.PruneIs | src/addrman.h:411-420 | Pruning erases exactly the untried entries without references, keeps the tables, and keeps vRandom and nRandomPos inverse |
| AddrStream.WriteEntries | src/addrman.h:291-313 | The walk over mapInfo writes the listed entries and knows their ranks; the asserts on nNew and nTried never fire |
| AddrStream.Serialize | src/addrman.h:277-330 | The loops over the class's maps and arrays write the specified stream |
| AddrStream.Unserialize | src/addrman.h:333-422 | The loops read every stream, malformed or not, as specified |
| AddrStream.WriteAndRead | src/addrman.h:277-422 | The two methods in a row return the renumbered manager, consistent again |
| Denominations.AmountsAreChain | src/libzerocoin/Denominations.h:19-32 | The eight amounts increase strictly and each divides the next |
| Denominations.Fill | src/denomination_functions.cpp:46-68 | Coins of values dividing an amount, worth at least it, contain coins worth exactly it |
| Denominations.Exchange | src/denomination_functions.cpp:46-68 | Any payment can be changed to take as many of the highest coin as greedy does, without more coins |
| Denominations.GreedyBest | src/denomination_functions.cpp:46-68 | Greedy pays every amount that can be paid, with no more coins than any other payment |
| Denominations.GreedyComplete | src/denomination_functions.cpp:99-126 | Greedy hits the target if and only if some of the held coins are worth it |
| Denominations.GreedyFewest | src/denomination_functions.cpp:46-68 | No coins of the same worth are fewer than greedy's |
| Denominations.GreedyLargest | src/denomination_functions.cpp:46-68 | Of the amounts up to the target that the held coins can pay, greedy pays the largest |
| Denominations.ChangeClose | src/denomination_functions.cpp:73-93 | Change is the whole of a positive amount up to less than the lowest value, and empty for a negative one |
| Denominations.NoChange | src/denomination_functions.cpp:73-93 | There is no coin in change if and only if the amount is below the lowest value |
| Denominations.ChangeFewest | src/denomination_functions.cpp:73-93 | Change uses the fewest coins |
| CoinSelection.GetSpendCoins | src/denomination_functions.cpp:46-68 | The nested loops compute the greedy payment |
| CoinSelection.GetChange | src/denomination_functions.cpp:73-93 | The nested loops compute the change |
| CoinSelection.GetNumberOfCoinsUsed | src/denomination_functions.cpp:18-26 | The number of coins in a map |
| CoinSelection.FindHighestHeld | src/denomination_functions.cpp:31-42 | The highest denomination held, or none |
| CoinSelection.FirstStage | src/denomination_functions.cpp:241-255 | Takes coins from the top while the remainder is above their value |
| CoinSelection.SecondStage | src/denomination_functions.cpp:257-269 | Adds the lowest coin left that exceeds the remainder |
| CoinSelection.RemoveOverlap | src/denomination_functions.cpp:280-292 | Cancels used coins against change |
| CoinSelection.MinimizeChange | src/denomination_functions.cpp:222-311 | The proposal is taken if and only if it makes less change and needs few enough coins |
| CoinSelection.AlternativeCovers | src/denomination_functions.cpp:230-295 | The proposal's amount covers the target and the held coins can pay it exactly |
| CoinSelection.ApproachIsClosest | src/denomination_functions.cpp:241-255 | The first stage takes from each denomination, from the top, as many coins as are held and stay below the remainder |
| CoinSelection.AltIsProposal | src/denomination_functions.cpp:222-311 | The proposal: those coins, the lowest one left that exceeds the remainder, and the change less what both have in common |
| CoinSelection.CoverExact | src/denomination_functions.cpp:365-408 | Where the first stage leaves no coin above the remainder, taking from the top pays the target exactly |
| CoinSelection.CoverFromTheTop | src/denomination_functions.cpp:365-408 | Covering from the top takes all coins of the higher denominations and as few of the next as cover the target |
| CoinSelection.ChoiceIs | src/denomination_functions.cpp:319-408 | What the branches choose, without naming the functions that choose it |
| CoinSelection.LowestCoinUsed | src/denomination_functions.cpp:328-345 | If a held coin exceeds the target, the change has no more coins than that of the lowest such coin; unless change is minimized that one coin is used |
| CoinSelection.ChoiceCovers | src/denomination_functions.cpp:319-408 | If the held coins are worth the target, the chosen coins are held, cover it, and the number returned is the number of coins of change; otherwise all are used and 0 is returned |
| CoinSelection.CalculateChange | src/denomination_functions.cpp:319-408 | The loops make such a choice, through every branch: in particular, when a held coin exceeds the target, the lowest such coin unless change is minimized, and never more coins of change than it leaves |
| CoinSelection.GetIdealSpends | src/denomination_functions.cpp:99-126 | True if and only if some unused mints are worth the target, and then the fewest are added to whatever the map held |
| CoinSelection.GetSpends | src/denomination_functions.cpp:131-151 | Terminates with unused mints of the given counts, worth as much, provided no needed denomination is without an unused mint; no mint is selected more often than listed if and only if there are enough |
| CoinSelection.SpendsDistinct | src/denomination_functions.cpp:131-151 | The selection repeats a mint if and only if more are wanted than there are |
| CoinSelection.SpentTwice | src/denomination_functions.cpp:131-151 | Two mints wanted of a single one: it is selected twice |
| CoinSelection.ChoiceFails | src/denomination_functions.cpp:437-443 | 0 coins of change, taken as a failure, if and only if the held coins are too few or, by the guards of the branch taken, no coin of change is left |
| CoinSelection.FailsOnlyNear | src/denomination_functions.cpp:437-443 | A covered target fails only if an amount less than the lowest value above it can be paid exactly |
| CoinSelection.FiveCentsFail | src/denomination_functions.cpp:437-443 | A concrete failure: one five-cent coin and a target of one unit less select nothing |
| CoinSelection.NearButChosen | src/denomination_functions.cpp:319-408 | The converse of FailsOnlyNear fails: values 1, 4, 20, coins 3, 5, 4 and target 14, which can be paid, choose a 20 and change |
| CoinSelection.SelectMintsFromList | src/denomination_functions.cpp:414-448 | For any counts of held coins: an exact payment of few enough unused mints if there is one; otherwise what calculateChange chooses of the held coins, covering the target with the number of coins in change, unless nothing is selected |
| CheckQueue.Queue.Section | src/checkqueue.h:77-120 | The critical section does what one step of the state machine does, and notifies the master exactly at the last batch |
| CheckQueue.Queue.Awake | src/checkqueue.h:90-120 | The critical section after a wait |
| CheckQueue.Queue.Add | src/checkqueue.h:146-158 | Queues the checks and counts them; notifies all workers for more than one check, one for a single one, none for none |
| CheckQueue.Queue.IsIdle | src/checkqueue.h:164-168 | The idle test |
| CheckQueue.Execute | src/checkqueue.h:121-124 | A batch is executed, skipping after the first failure: the conjunction with what was known |
| CheckQueue.BatchSize | src/checkqueue.h:105-110 | The largest number up to nBatchSize that fits nTotal + nIdle + 1 times into the queue, and 1 if that is none |
| CheckQueue.AddWakes | src/checkqueue.h:146-158 | After Add no worker sleeps if there were several checks; a single one wakes one sleeper if there is any, none wakes nobody |
| CheckQueue.TakeStep | src/checkqueue.h:69-158 | Every step of the state machine is what the queue's methods do to its fields, notifications included |
| CheckQueue.RunOn | src/checkqueue.h:69-158 | A whole interleaving on one queue object ends in the state machine's state |
| CheckQueue.StepKeeps | src/checkqueue.h:69-158 | Every step of every thread keeps the invariant on counts, answers and sleepers |
| CheckQueue.HoldersCounted | src/checkqueue.h:77-120 | In every interleaving, nTotal - nIdle is the number of threads holding a batch between critical sections |
| CheckQueue.WaitAnswers | src/checkqueue.h:139-143 | In every interleaving each Wait answers whether all checks added since the Wait before are good, though checks are skipped after a failure |
| CheckQueue.AllAnswered | src/checkqueue.h:69-158 | Every check added is answered for by exactly one Wait, in order, or still open |
| CheckQueue.IdleAfterWait | src/checkqueue.h:164-168 | In every interleaving IsIdle is true whenever the master is out of Wait and has added nothing since |
| CheckQueue.SleepingMasterAwaits | src/checkqueue.h:82-104 | In every interleaving a master asleep without a signal has a worker with an unfinished batch |
| CheckQueue.NeverStuck | src/checkqueue.h:69-127 | In every interleaving, while the master is in Wait, some thread can take a useful step |
| CheckQueue.UsefulLess | src/checkqueue.h:69-127 | Every useful step decreases a measure |
| CheckQueue.OtherNoMore | src/checkqueue.h:69-127 | A worker entering Loop or waking without a signal does not increase it |
| CheckQueue.WaitReturns | src/checkqueue.h:139-143 | From every reachable state and while nothing is added, only boundedly many useful steps can be made, whatever other steps come between; when none is left, Wait has returned |
| CheckQueueControl.ControllersFindIdle | src/checkqueue.h:176-211 | In every run of successive controllers, destructors that wait included, the assert at line 188 holds at every construction, unless a controller was destroyed with checks added after its Wait |
| CheckQueueControl.LateAddFails | src/checkqueue.h:183-211 | After any run, checks added after Wait make the next controller's assert fail in some continuation |
| ArithUint.BaseUint.Assign | src/arith_uint256.h:91-98 | The value becomes the 64-bit number |
| ArithUint.BaseUint.GetLow64 | src/arith_uint256.h:267-271 | The value, if it fits 64 bits |
| ArithUint.BaseUint.AddAssign | src/arith_uint256.h:138-147 | Addition modulo 2^BITS, also onto itself |
| ArithUint.BaseUint.Increment | src/arith_uint256.h:175-182 | Increment modulo 2^BITS, despite the early stop |
| ArithUint.BaseUint.Negate | src/arith_uint256.h:80-87 | The negative modulo 2^BITS |
| ArithUint.BaseUint.SubAssign | src/arith_uint256.h:149-153 | Subtraction modulo 2^BITS, also from itself |
| ArithUint.BaseUint.MulAssignWord | src/arith_uint256.cpp:91-101 | The product with a 32-bit number modulo 2^BITS, carries within 64 bits |
| ArithUint.BaseUint.MulRow | src/arith_uint256.cpp:107-115 | One row of the schoolbook product, its carry within 64 bits |
| ArithUint.BaseUint.MulAssign | src/arith_uint256.cpp:103-117 | The product modulo 2^BITS; 0 if the argument is the receiver |
| ArithUint.ThreeTimesItself | src/arith_uint256.cpp:103-117 | The number 3, multiplied in place by itself, becomes 0 |
| ArithUint.BaseUint.CompareTo | src/arith_uint256.cpp:145-155 | The order of the values |
| ArithUint.BaseUint.Bits | src/arith_uint256.cpp:195-208 | The position of the highest bit |
| ArithUint.BaseUint.ShlAssign | src/arith_uint256.cpp:57-72 | Multiplication by a power of two modulo 2^BITS |
| ArithUint.BaseUint.ShrAssign | src/arith_uint256.cpp:74-89 | Division by a power of two |
| ArithUint.BaseUint.DivAssign | src/arith_uint256.cpp:119-143 | The exact floor quotient, and num is the remainder; by zero it fails with the value cleared |
| LimbBits.ShrByParts | src/arith_uint256.cpp:74-89 | A right shift by limbs and then by bits is the right shift |
| LimbBits.AlignedFits | src/arith_uint256.cpp:129-132 | The aligned divisor is not cut off, and twice it exceeds the dividend |
| Compact.DecodeMeans | src/arith_uint256.cpp:242-262 | A word of exponent, sign bit and 23-bit mantissa is the mantissa moved by the exponent less three bytes, cut to 256 bits, and negative if the sign is set and the moved mantissa is not 0 |
| Compact.SmallExamples | src/test/arith_uint256_tests.cpp:423-504 | Words whose exponent is smaller than their mantissa, and a negative one |
| Compact.LargeExample | src/test/arith_uint256_tests.cpp:511-522 | A word with exponent 4 |
| Compact.LostIs | src/arith_uint256.cpp:264-285 | Nothing is lost of a number below 2^23, and of others as little as leaves a mantissa of 16 to 23 bits |
| Compact.OverflowExact | src/arith_uint256.cpp:257-260 | The overflow flag is set if and only if the mantissa at its place needs more than 256 bits |
| Compact.DecodeEncode | src/arith_uint256.cpp:244-285 | SetCompact(GetCompact(x)) is x without its lowest bytes, never above x, no overflow, right sign |
| Compact.EncodeAgain | src/arith_uint256.cpp:244-285 | Encoding what was decoded gives the same word |
| Compact.EncodeMonotone | src/arith_uint256.cpp:264-285 | GetCompact keeps the order |
| Compact.SetCompact | src/arith_uint256.cpp:244-262 | The limb operations compute the decoding of every word |
| Compact.GetCompact | src/arith_uint256.cpp:264-285 | The limb operations compute the encoding; both asserts hold |
| BasePowers.CompareRoots | src/base58.cpp:33-34 | Powers compare like the roots of one known comparison |
| BasePowers.EncodeFits | src/base58.cpp:91-92 | 256^n is at most 58 to the buffer size n * 138 / 100 + 1 |
| BasePowers.DecodeFits | src/base58.cpp:33-34 | 58^n is at most 256 to the buffer size n * 733 / 1000 + 1 |
| Base58.ApplyInPlace | src/base58.cpp:40-48 | The in-place multiply-and-add loop over a digit buffer, every intermediate int in range |
| Base58.NoCarry | src/base58.cpp:48 | Nothing is carried out while the value fits, and the value is multiplied and added to |
| Base58.Push | src/base58.cpp:94-104 | One more digit in a buffer that is large enough: assert(carry == 0) holds |
| Base58.Convert | src/base58.cpp:93-105 | The digits of the same number in the other base |
| Base58.EncodeBase58 | src/base58.cpp:83-116 | The loops compute the encoding of every byte string |
| Base58.DecodeBody | src/base58.cpp:35-51 | The decoding loop up to the next space, its assert included |
| Base58.DecodeBase58 | src/base58.cpp:22-66 | The loops decode every string, spaces and bad characters included |
| Base58.DecodeEncode | src/base58.cpp:22-116 | Decoding an encoded byte string gives it back |
| Base58.EncodeDecode | src/base58.cpp:22-116 | An accepted string is what its bytes encode to, but for spaces around it |
| Base58.DecodeIs | src/base58.cpp:22-66 | A string decodes to some bytes if and only if it is their encoding, but for spaces around it |
| Base58.EncodeMeans | src/base58.cpp:83-116 | An encoding has as many leading ones as there are leading zero bytes, and is the same number in base 58 |
| Base58.Alphabet | src/base58.cpp:19-20 | The alphabet is all alphanumeric characters except for 0, I, O and l, in ascending order |
| Base58.EncodeExample | src/test/data/base58_encode_decode.json:8 | The encoding of the bytes 51 6b 6f cd 0f |
| Base58.CheckAccepts | src/base58.cpp:137-152 | A string is accepted as v if and only if check(v) has four bytes and the string decodes to v and check(v) |
| Base58.CheckedText | src/base58.cpp:128-152 | An accepted string is, but for spaces around it, what v and its check bytes encode to |
| Base58.EncodeBase58Check | src/base58.cpp:128-135 | The encoding of the bytes and their check bytes |
| Base58.DecodeBase58Check | src/base58.cpp:137-152 | Accepts v exactly if its check bytes are four and follow it in what the string decodes to, and otherwise fails |
| Base58.CheckRoundTrip | src/base58.cpp:128-152 | A checked string decodes to what was encoded |
| Chain.InvertLowestOne | src/main.cpp:4803-4804 | Clearing the lowest bit goes down and keeps even numbers even |
| Chain.LowestCleared | src/main.cpp:4803-4804 | (2 q + 1) * 2^k becomes 2 q * 2^k |
| Chain.GetSkipHeight | src/main.cpp:4806-4816 | The skip height is lower |
| Chain.EvenSkipHeight | src/main.cpp:4806-4816 | From an even height, the height without its lowest bit |
| Chain.OddSkipHeight | src/main.cpp:4806-4816 | From an odd height, the height without the two lowest bits above the last one |
| Chain.BlockIndex.constructor | src/main.cpp:4844-4848 | BuildSkip sets pskip to the ancestor at the skip height |
| Chain.BlockIndex.GetAncestor | src/main.cpp:4818-4837 | The walk over skip pointers finds the ancestor at the height, or nothing out of range |
| Chain.CChain.SetTip | src/chain.cpp:13-24 | From any valid chain, the chain is exactly the ancestor path of the new tip, despite the early stop |
| Chain.CChain.FindFork | src/chain.cpp:55-64 | The highest block common to the chain and the block's ancestors, if there is one |
| Chain.ForkSplits | src/chain.cpp:55-64 | Below the fork the chain and the block's ancestors agree |
| Chain.LocatorDescends | src/chain.cpp:26-53 | The heights of a locator descend strictly and end at 0 |
| Chain.LocatorShort | src/chain.cpp:26-53 | A locator lists at most 12 blocks and the binary logarithm of the height |
| Chain.LocatorAt | src/chain.cpp:26-53 | The heights of a locator: eleven steps back by one, then steps that double, cut off at 0 |
| Chain.CChain.StepBack | src/chain.cpp:41-47 | A step back over the chain or over skip pointers reaches the same ancestor |
| Chain.CChain.GetLocator | src/chain.cpp:26-53 | The hashes of the ancestors at those heights, from the given block or the tip |
| Accumulators.ParsePack | src/accumulators.cpp:19-25 | ParseChecksum recovers each field that GetCheckpoint packs |
| Accumulators.ParseIs | src/accumulators.cpp:19-25 | The field of the first denomination is the highest, that of the last the lowest |
| Accumulators.AddToEach | src/accumulatormap.cpp:51-62 | Adding mints grows each accumulator by the mints of its own denomination, in their order, and by no others |
| Accumulators.MintsInOrder | src/accumulators.cpp:182-219 | The mints of a range of blocks: block by block, none of a block below the start height |
| Accumulators.EachBelow | src/accumulators.cpp:182-219 | Below a height each accumulator has grown from its initial value by exactly the mints of its denomination |
| Accumulators.AccumulatorMap.Reset | src/accumulatormap.cpp:24-31 | All accumulators in their initial state |
| Accumulators.AccumulatorMap.Load | src/accumulatormap.cpp:34-48 | Succeeds if and only if every checksum is known, and then holds their values |
| Accumulators.AccumulatorMap.Accumulate | src/accumulatormap.cpp:51-62 | The accumulator of the coin's own denomination is incremented by its value and no other changes; an unknown denomination is refused |
| Accumulators.AccumulatorMap.GetCheckpoint | src/accumulatormap.cpp:73-86 | The packed checksums, no bit shifted out: each accumulator's checksum is the field at its place |
| Accumulators.ValuesMore | src/accumulators.cpp:182-219 | The accumulators below a height are those below a lower one and the mints between |
| Accumulators.CheckpointStands | src/accumulators.cpp:156-230 | At every height the checkpoint stands for accumulators holding exactly the mints due, each once |
| Accumulators.LoadLast | src/accumulators.cpp:169-180 | Loading the last checkpoint succeeds if and only if all its values are stored or it is 0, and then restores the accumulators it stands for |
| Accumulators.AccumulateWindow | src/accumulators.cpp:182-219 | The walk over ten blocks adds exactly their mints, skipping blocks below the start height |
| Accumulators.CalculateAccumulatorCheckpoint | src/accumulators.cpp:156-230 | At a multiple of 10 past activation it succeeds if and only if the last checkpoint's values are stored, no shutdown is requested and the window can be read, and then each accumulator has grown from its initial value by exactly the mints of its denomination from the start height to height - 11, in chain order, and the checkpoint packs their checksums or, without a new mint, is the last one |
| Accumulators.ValidateAccumulatorCheckpoint | src/accumulators.cpp:232-275 | A block is accepted if and only if it has the checkpoint of its height and, at multiples of 10 past activation, that checkpoint can be calculated |
| Accumulators.ValidatedExtends | src/accumulators.cpp:232-275 | Adding a validated block keeps the chain checkpointed |
| Accumulators.CheckpointOfPrefix | src/accumulators.cpp:156-230 | A checkpoint depends only on the blocks below it |
| LockedPages.TouchesExactly | src/allocators.h:50-55 | The pages from the first to the last of a range are exactly those containing one of its addresses |
| LockedPages.LockedPageManager.LockRange | src/allocators.h:47-66 | Every page's counter is the number of live ranges touching it, and the locked set is the counted pages |
| LockedPages.LockedPageManager.UnlockRange | src/allocators.h:69-89 | The same after unlocking a live range; the assert at line 79 never fails |
| LockedPages.LockedPageManager.GetLockedPageCount | src/allocators.h:92-97 | The number of locked pages |

## Left out

- Cryptography: hashes, signatures, accumulator arithmetic and public-key decompression are uninterpreted; full-key
  decompression is taken to be inverse to compression (`Curve.Sound`).
- LevelDB, files, sockets, RPC and the command line.
- CCoins and transactions: `nRounds` of transaction outputs, priority, statistics, `SetBackend`, cache sizes and
  `GetSerializeSize` (whose factor 8 at src/coins.h:183 does not match the 16 at line 207).
- The transaction, spent, address and timestamp indexes in `DisconnectBlock` (src/main.cpp:2656-2688) are switched off,
  as is the zerocoin database.
- The serialized form of undo records (src/undo.h:31-58), which only adds an easy codec.
- CoinsCodec.SerializeLoop: requires the header code to fit the 32 bits of its variable (src/coins.h:207); beyond, with
  more than 2^28 mask bytes, the source's product wraps around.
- CoinsConnect.DisconnectTransaction: leaves the map open where an unclean undo restores an output into a pruned entry
  without metadata in its record: what stays there depends on what the cache holds, and flat maps do not tell.
- `CAddrMan::Select_` and `GetChance`: probabilistic termination and floating point.
- `CAddrMan::Unserialize` into a manager that is not empty, where `Clear` leaves `mapInfo` and `mapAddr` filled.
- AddrStream.Unserialize: fills a value that holds the maps and tables, not the arrays in place, because a malformed
  stream can bring ids that the arrays do not tell from an empty slot; the stream is a list of tokens, not bytes.
- The spend limit in the change path of `SelectMintsFromList`, which the code does not enforce there.
- CoinSelection.GetSpends: requires an unused mint of every needed denomination; without one the source's loop does not
  end.
- CoinSelection.SelectMintsFromList: requires the same of every denomination held, for the same reason; its caller takes
  the counts from the list (src/wallet.cpp:1710-1725).
- `CCheckQueue`: `fQuit` is never set, and thread interruption is not modelled. What a check answers is fixed when it is
  added. Only the one master adds checks, and not while it is in Wait. `nTodo` is unbounded, where the source's wraps
  around at 2^32 open checks.
- `CCheckQueueControl` of a null queue, whose Add does nothing and whose Wait answers true.
- Multi-limb integers: the operators `--`, `^=`, `&=`, `|=`, `~`, hexadecimal text and `getdouble`.
- Base58 addresses and keys over the checked form (src/base58.cpp:159-346); C strings have no embedded zero byte.
- Chain: block status, work and proof-of-stake fields of block indexes.
- Accumulators: witnesses, erasing checkpoints and the commented-out recalculation. A checksum in the database is taken
  to be that of the value stored under it and of no other in use, and 0 not to be stored.
- Accumulators.ValidateAccumulatorCheckpoint: the mode `fVerifyingBlocks`, in which the source checks nothing.
- LockedPages: wrap-around of addresses at the end of memory, and failure of the system call.
- `limitedmap`, `mruset`, masternodes, the staking kernel, bloom filters and wallet encryption.
