# Poll canister — a verified model

The system is a small voting canister. It keeps a global store of polls,
keyed by poll name and capped at three polls. A caller can create a poll
with a list of option labels and a closing time. Anyone can register once
per poll as a voter under a display name. The owner can change any other
voter's weight (the "contribution"). A registered voter can vote for an
option until the poll closes. After closing, the tally of votes can be read.
A poll read by anyone other than its owner comes back with its voter list
and vote log hidden.

The model has four modules:

- `Polls` (`polls.dfy`): the records (`Poll`, `Voter`, `VotingDetail`,
  `PollPayload`), one error constructor per error message, the capacity
  `MaxPolls = 3`, the `findIndex` searches (`IndexOf`, `VoterIndex`), the owner/non-owner
  view of a poll (`View`), and the invariants every stored poll keeps.
- `Lifecycle` (`lifecycle.dfy`): each update operation as a function from
  the store's contents to the operation's result and the new contents. Its
  contracts state the order of the checks, that a failed call stores
  nothing, and exactly what a successful call changes.
- `PollRegistry` (`registry.dfy`): the store as a class, `Registry`. Its
  methods follow the source step by step: read the poll, check, change one
  list, write the poll back. Each method is proved to leave the store in the
  state the matching `Lifecycle` function describes and to keep the store
  invariant. The two read operations are functions that read the object.
- `PollProperties` (`properties.dfy`): properties of any sequence of update
  calls (capacity, uniqueness of voters, fields that never change, an
  append-only vote log), the complementary voting and results windows, and
  a worked example that follows one poll from creation to its results.

The caller principal and the current time are explicit parameters. A
principal is a value compared only for equality.

## Model

| member | source | states |
|---|---|---|
| `Polls.IndexOf` | src/index.ts:170-171 | `findIndex` with an equality test (the option and principal searches): the result is -1 exactly when the value is absent; otherwise it is the first position holding it |
| `Polls.VoterIndex` | src/index.ts:99-100 | the name search over a poll's voters: -1 exactly when no voter has that display name; otherwise the position of the first voter with it |
| `Polls.View` | src/index.ts:73-77 | the owner sees the stored poll unchanged; any other caller sees every field except voters and voting details, which come back empty |
| `Lifecycle.NewPoll` | src/index.ts:58-64 | the poll built by `createPoll`: owner is the caller, closing time is the parsed deadline, no voters and no votes, and name, description, option count and options come from the payload |
| `Lifecycle.CreatePoll` | src/index.ts:40-67 | the checks run in order (store full, deadline not after now, name taken, option count differs from the option list); each error occurs exactly when its check is the first to fail, and success occurs exactly when all four pass; an error stores nothing; success adds exactly one poll under the payload's name, returns it, and keeps the store invariant |
| `Lifecycle.RegisterVoterToPoll` | src/index.ts:96-120 | fails for an unknown poll, a display name already used in the poll, or a caller principal already registered; success appends exactly one voter (the name, the caller, weight 1.0); nothing else changes; names and principals stay unique |
| `Lifecycle.ChangeVoterContribution` | src/index.ts:123-150 | each error occurs exactly when its check is the first to fail, in order: unknown poll, caller not the owner, unknown voter name, first voter of that name registered with the owner's principal; success occurs exactly when all pass and changes only that voter's weight, returning the updated voter; voter count, other voters, options, votes, owner and closing time are untouched |
| `Lifecycle.VoteToPoll` | src/index.ts:153-185 | each error occurs exactly when its check is the first to fail, in order: unknown poll, closing time not after now, unknown voter name, first voter of that name registered under another principal than the caller, unknown option label; success occurs exactly when all pass and appends one vote with the first index of the label (within the option range) and that voter's weight at that moment; voters and options are unchanged |
| `Lifecycle.VotingResultBuffer` | src/index.ts:188-195 | an unknown poll is an error; results are refused while now is before the closing time; once closed, the tally starts as one zero per option |
| `PollRegistry.Registry.constructor` | src/index.ts:37 | the store starts empty and satisfies the invariant |
| `PollRegistry.Registry.CreatePoll` | src/index.ts:40-67 | the in-place `createPoll` leaves the store and the result `Lifecycle.CreatePoll` describes and keeps the invariant; on success the new name is enumerated last |
| `PollRegistry.Registry.GetPollByName` | src/index.ts:70-80 | fails exactly when the name is absent; otherwise the stored poll as the caller may see it: unchanged for the owner, voters and votes emptied for anyone else, every other field equal |
| `PollRegistry.Registry.GetAllPolls` | src/index.ts:83-93 | one entry per stored poll, each poll exactly once, each the caller's view of the stored poll of that name |
| `PollRegistry.Registry.RegisterVoterToPoll` | src/index.ts:96-120 | the in-place registration (`voters.push`, then write-back) matches `Lifecycle.RegisterVoterToPoll` and keeps the invariant |
| `PollRegistry.Registry.ChangeVoterContribution` | src/index.ts:123-150 | the in-place weight change (assign the voter's contribution, then write-back) matches `Lifecycle.ChangeVoterContribution` and keeps the invariant |
| `PollRegistry.Registry.VoteToPoll` | src/index.ts:153-185 | the in-place vote (`votingDetails.push`, then write-back) matches `Lifecycle.VoteToPoll` and keeps the invariant |
| `PollRegistry.Registry.GetVotingResult` | src/index.ts:188-195 | after the guards, fills a new array of `no_of_options` slots with zeros; its outcome is the one `Lifecycle.VotingResultBuffer` describes |
| `PollProperties.RunPreservesInvariant` | src/index.ts:39-185 | after any sequence of update calls, in any order, the store holds at most three polls; each is stored under its own name; each keeps its option count equal to its option list; voter names and principals are unique; every vote names a registered voter and a valid option |
| `PollProperties.RunExtends` | src/index.ts:39-185 | no update call removes a poll or changes its owner, description, options, option count or closing time; registered voters keep their position, name and principal; the vote log only grows at its end, so a cast vote keeps its recorded weight |
| `PollProperties.FullRegistryRejectsCreates` | src/index.ts:41-43 | once three polls exist, any later sequence of calls keeps exactly those names, and `createPoll` then always fails with the capacity error |
| `PollProperties.VotingAndResultWindowsComplementary` | src/index.ts:156-191 | for a stored poll at any instant, a vote is refused as closed exactly when the results guard lets the tally start; at the closing instant itself voting is closed |
| `PollProperties.WalkThroughCreate` | src/index.ts:40-67 | creating "P1" (Yes/No, closing in an hour) in an empty store succeeds and stores it with no voters |
| `PollProperties.WalkThroughRegister` | src/index.ts:96-120 | registering "alice" in that poll succeeds with weight 1.0 |
| `PollProperties.WalkThroughChange` | src/index.ts:123-150 | the owner setting alice's weight to 3.0 succeeds and changes only that weight |
| `PollProperties.WalkThroughVote` | src/index.ts:153-185 | alice voting "Yes" before the deadline records option 0 with weight 3.0 |
| `PollProperties.WalkThroughResults` | src/index.ts:188-195 | after the deadline the tally of that poll starts as two zero slots |
| `PollProperties.OwnerSelfEditScenario` | src/index.ts:139-142 | an owner who registered as a voter is refused when changing their own weight |

The read operations are functions of the store, so they cannot change it.

The model follows the code in these places, where a stricter reading of
the canister's purpose would differ:

- `createPoll` never checks that the option list is non-empty. It only
  checks that `no_of_options` equals the list's length, so a poll with no
  options can be created.
- `createPoll` checks capacity before the name. On a full store, a taken
  name is reported as "maximum number of polls reached".
- The code shows no viewer check in `getVotingResult` before the tally
  starts.

## Left out

- The storage engine: the model's store is a map. The engine's limits of
  100 bytes per key and 1000 bytes per stored poll are not modelled, and
  neither is what `insert` does with an over-long poll name or an oversized
  poll.
- Enumeration order: `getAllPolls` returns polls in the engine's key order.
  The model returns them in insertion order and proves only that each
  stored poll appears exactly once.
- `ic.caller()` and `Date.now()`: both become parameters. Principals are
  compared by equality, not by their text form.
- `parseDate` is not part of this model. The payload carries the deadline
  already parsed, so an unparseable deadline (and the failing `BigInt`
  conversion) is not modelled.
- Contributions are `real`, not IEEE doubles. `no_of_options` is an
  integer. A fractional count fails the source's length check in the same
  way, so nothing is lost there.
- The object spread in `createPoll` also copies the payload's `pollClosing`
  text. That field is not part of the `Poll` record type, and the model
  drops it.
- `getVotingResult` after line 195 is not visible: the summing of weights
  per option, the "label: total" formatting and any viewer check. The else
  branches of the `if`s at lines 190 and 191 lie after line 195 as well, so
  both error results are assumptions of the model: an unknown poll is reported as
  `PollNotFound`, like the other operations do, and a poll that has not
  closed yet as `ResultsNotYetAvailable`.
- `Lifecycle.VotingResultBuffer`: its `PollNotFound` and
  `ResultsNotYetAvailable` results are assumed, for the reason above.
- An expiry sweep that removes closed polls does not appear in the source,
  so it is not modelled.
- The canister runs one message at a time. Concurrent calls are not
  modelled.
- Error message texts become constructors of `Polls.Error`.
