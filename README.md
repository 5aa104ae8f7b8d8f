# SpyMaster in Dafny

A model of the `SpyMaster` zkApp contract. The contract keeps a whitelist of
at most 100 spy addresses. Each whitelisted spy may post one message, and the
contract accepts a message only when its six flag bits obey three rules. On
chain it stores four fields:

- `nullifierRoot`: the root of a Merkle map from address to status. Status 0
  means not whitelisted, 1 means whitelisted and 2 means the message is set.
- `messageRoot`: the root of a Merkle map from address to message.
- `numAddresses`: the number of addresses added.
- `numMessages`: the number of messages posted.

The contract never reads a map. The caller sends a witness for a key. The
contract replays the witness with the value it expects at that key and
compares the result with the stored root. Then it replays the witness with the
new value to get the next root.

How the model is built:

- `constants.dfy` (`Constants`): the capacity, the three status values, and
  the errors the contract raises, as an enum rather than strings.
- `merkle_map.dfy` (`MerkleMaps`): the Merkle map as the contract sees it.
  - A root is the committed map itself, written without its zero entries. Two
    roots are then equal exactly when the maps are. This is the
    collision-resistance the contract relies on.
  - `ZeroField` is the zero field element that a state field holds before
    `initMapRoots` writes to it. It is the root of no map.
  - A witness is a key together with the other entries of the map.
- `message_flags.dfy` (`MessageFlags`): `Gadgets.and` as bitwise AND on
  natural numbers, and `validateMessage` written the way the source writes it.
  Lemmas show that `BitAnd` is the bitwise AND, state the validator as three
  implications over bits 0 to 5, show that only the message modulo 64
  matters, and check the fixtures from the tests.
- `spy_master.dfy` (`SpyMasterContract`): the contract as a class with the
  four fields. Each method states when it rejects and with which error, and
  that a rejected call changes nothing. It also states the full new state
  after an accepted call. An accepted add never takes `numAddresses` past
  100. Both transitions keep the invariant `Tallied`: `numAddresses` is the
  number of keys with a non-zero status, and `numMessages` is the number of
  keys with status 2. It holds from initialisation with an empty nullifier
  map onwards, until `initMapRoots` is called again.
- `scenarios.dfy` (`SpyMasterScenarios`): the runs from the contract's tests,
  plus four runs that the tests do not make:
  - filling the whitelist and being refused on the 101st address;
  - a message witness for another address being accepted;
  - the message 0 being accepted;
  - a second `initMapRoots` letting the same spy be counted twice.

Facts about the code that the model records:

- `updateMessages` checks each witness against its own map only. The key that
  `computeRootAndKey` returns is thrown away, so nothing makes the two
  witnesses name the same address (`MismatchedWitnessesAccepted`).
- An address can reach status 2 with no message stored. The message 0 passes
  the validator, and posting it leaves the message map unchanged
  (`ZeroMessageLeavesNoTrace`). A mismatched message witness writes the
  message under another address.
- `initMapRoots` has no guard. It can be called at any time and replaces both
  roots without touching the counters, after which the counters no longer
  match the map (`ReinitialisationDropsTally`).

## Model

| member | source | states |
|---|---|---|
| `MerkleMaps.ComputeRootAndKey` | src/SpyMaster.ts:49 | replaying a witness with value v gives a map root that holds v at the witness's key and the witness's entries elsewhere, and returns that key |
| `MerkleMaps.GetWitness` | src/SpyMaster.test.ts:119 | the witness taken from a map for a key reproduces that map's root when replayed with the key's current value |
| `MerkleMaps.ReplayMatches` | src/SpyMaster.ts:48-50 | a replay equals the stored root iff the root is a map root holding the assumed value at the key and agreeing with the witness at every other key |
| `MerkleMaps.ReplayBindsValue` | src/SpyMaster.ts:77-79 | a witness reproduces a given root with at most one value, so the status check proves the key's current status |
| `MerkleMaps.ReplayUpdates` | src/SpyMaster.ts:54-55 | once a replay matches the stored root, replaying with a new value gives the stored map with only that key changed |
| `MessageFlags.BitAndBits` | src/SpyMaster.ts:120-125 | `BitAnd` is the bitwise AND: bit i of the result is set iff bit i is set in both arguments |
| `MessageFlags.BitAndPow2` | src/SpyMaster.ts:120-125 | ANDing with the mask 2^i gives the mask if bit i is set and 0 otherwise |
| `MessageFlags.FlagIsBit` | src/SpyMaster.ts:127-132 | `and(message, mask) == mask` with a one-bit mask holds iff that bit of the message is set |
| `MessageFlags.Flag` | src/SpyMaster.ts:127-132 | the extract-then-compare step `and(message, mask) == mask`; its contract is `FlagIsBit` |
| `MessageFlags.ValidateMessage` | src/SpyMaster.ts:111-149 | `validateMessage` written as in the source; its contracts are `ValidateMessageIsFlagRules` and `ValidateMessageLowBits` |
| `MessageFlags.ValidateMessageIsFlagRules` | src/SpyMaster.ts:106-149 | the validator accepts iff flag 1 excludes flags 2-6, flag 2 implies flag 3, and flag 4 excludes flags 5 and 6 (flag k is bit k-1) |
| `MessageFlags.ValidateMessageLowBits` | src/SpyMaster.ts:113-125 | the verdict on a message equals the verdict on the message modulo 64 |
| `MessageFlags.AcceptedFixturesWithActiveRule` | src/SpyMaster.test.ts:255-285 | 449, 1478 and 840 are accepted |
| `MessageFlags.AcceptedFixturesWithNoActiveRule` | src/SpyMaster.test.ts:259-304 | 36, 1776, 0, 1780 and 740 are accepted |
| `MessageFlags.RejectedFixtures` | src/SpyMaster.test.ts:266-328 | 1539, 1475, 197, 184, 138 and 168 are rejected |
| `SpyMasterContract.WhitelistStepTally` | src/SpyMaster.ts:53-59 | writing 1 at an unregistered key keeps every status 1 or 2, adds exactly one registered key and no posted key |
| `SpyMasterContract.MessageStepTally` | src/SpyMaster.ts:95-102 | writing 2 at a whitelisted key keeps every status 1 or 2, keeps the registered keys and adds exactly one posted key |
| `SpyMasterContract.SpyMaster.constructor` | src/SpyMaster.ts:21-25 | after deployment and `init` both counters are 0 and both roots hold the zero field element |
| `SpyMasterContract.SpyMaster.InitMapRoots` | src/SpyMaster.ts:29-35 | both roots become the supplied values and the counters are unchanged; with an empty nullifier map and zero counters the tally invariant holds |
| `SpyMasterContract.SpyMaster.AddEligibleAddress` | src/SpyMaster.ts:38-60 | rejects with the capacity error iff 100 addresses are present, else with the already-whitelisted error iff the replay with 0 misses the root, which includes every key with status 1 or 2; on success writes 1 at the key, adds 1 to `numAddresses` (never past 100) and leaves the message root and `numMessages`; a rejection changes nothing; keeps the tally |
| `SpyMasterContract.SpyMaster.UpdateMessages` | src/SpyMaster.ts:63-103 | rejects, in order, unless the nullifier key holds 1 (so unregistered and already-posted keys fail), unless the message key holds 0, unless the flags are valid; on success writes the message at the message key and 2 at the nullifier key, adds 1 to `numMessages` and leaves `numAddresses`; a rejection changes nothing; keeps the tally |
| `SpyMasterScenarios.InitialState` | src/SpyMaster.test.ts:100-112 | after deployment and root initialisation the counters are 0 and the roots are the supplied ones |
| `SpyMasterScenarios.AddTwoSpies` | src/SpyMaster.test.ts:114-157 | two distinct spies are both accepted, the count is 2 and the root is the map with both at 1 |
| `SpyMasterScenarios.AddSameSpyTwice` | src/SpyMaster.test.ts:159-187 | re-adding a spy is refused as already whitelisted, and the root and count stay as after the first add |
| `SpyMasterScenarios.UnlistedSpyCannotPost` | src/SpyMaster.test.ts:189-205 | a spy never whitelisted is refused with any message and no message is counted |
| `SpyMasterScenarios.WhitelistedSpyPostsOnce` | src/SpyMaster.ts:76-102 | as in the test at src/SpyMaster.test.ts:207-245, a whitelisted spy's post of 449 is accepted and stored; a second post with any message is refused by the status check, so one message is counted |
| `SpyMasterScenarios.InvalidFlagsRejected` | src/SpyMaster.test.ts:331-362 | a whitelisted spy's post of 1539 is refused for invalid flags |
| `SpyMasterScenarios.FillWhitelist` | src/SpyMaster.ts:43-45 | after 100 distinct addresses the next add is refused for capacity, with the root unchanged and the count at 100 |
| `SpyMasterScenarios.MismatchedWitnessesAccepted` | src/SpyMaster.ts:76-97 | a nullifier witness for one spy with a message witness for another address is accepted; the spy is marked posted and the message lands at the other address |
| `SpyMasterScenarios.ReinitialisationDropsTally` | src/SpyMaster.ts:29-35 | after a second `initMapRoots` with an empty map, the same spy is accepted again and the count reaches 2 while the map holds one key |
| `SpyMasterScenarios.ZeroMessageLeavesNoTrace` | src/SpyMaster.ts:91-102 | posting 0 is accepted and counted and sets the status to 2, but the message map stays empty |

## Left out

- The o1js transaction machinery is not modelled: `@method`, `@state`, proving, signing, deployment and the local chain. Each method runs atomically against the current state. The on-chain rejection of a transaction proved against stale state (`getAndRequireEquals`) is not modelled.
- Poseidon hashing and Merkle tree internals (depth, leaf hashing, witness paths) are not modelled. The root is the committed map, which assumes the hash is collision-resistant. A stored root that is the root of no map is represented by `ZeroField`.
- Field arithmetic is not modelled: the counters and the message are unbounded naturals. `numAddresses` never exceeds 100. `numMessages` would wrap only after about 2^254 posts, which cannot happen.
- The range check inside `Gadgets.and` is not modelled. In the circuit it fails for inputs wider than the padded bit length. The model accepts every natural and reads its low bits. The tests use only values below 2^11.
- The test "only admin can add accounts to whitelist" (src/SpyMaster.test.ts:364-375) is not modelled. `addEligibleAddress` has no sender check, and `NOT_ADMIN_ERROR` is not defined in src/consts.ts.
- The tests call `initializeState` (src/SpyMaster.test.ts:94). The contract defines `initMapRoots`, which is what the model has.
- `INVALID_MESSAGE_FLAGS_ERROR` (src/SpyMaster.ts:89) is not defined in src/consts.ts. It is modelled as the error `InvalidMessageFlags`.
- The error messages are not modelled as strings. Each one is a constructor of `Error`. The capacity check uses the default message of `assertLessThan`, modelled as `AddressLimitReached`.
