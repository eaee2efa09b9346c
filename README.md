# OrbitChain ledger engine in Dafny

This project models the ledger engine of OrbitChain (`Orbitchain.py`).
Transactions are collected into *orbits*. An orbit is a batch of fixed
capacity that only grows by appending and carries a pairwise Merkle
commitment over its transactions' content tags. It goes one way from open to
sealed, and sealing fixes an orbital hash that links it to the orbit before
it. A network object holds:

- the chain of orbits, starting with a sealed genesis orbit;
- a FIFO queue of pending transactions;
- a registry of validators, whose vote forms a 67% consensus gate;
- a processing step. It opens a new orbit when needed, admits approved
  transactions in queue order, seals the orbit when it fills and stops.

Modules, one per file:

- `Digests` (`digests.dfy`): the hash pipeline is a `Hasher`, a function
  from a `Preimage` (one constructor per call site) to a 16-character
  `Digest`. Timestamps are opaque values.
- `Transactions`: the immutable transaction record, its content tag
  (`Sign`), its construction, the structural check and the dictionary view.
- `Outcomes`: `Result` and the Python exceptions the code can raise.
- `Validators`: the `Validator` class with its check and counter, and the
  angle given at registration.
- `Consensus`: the gate as pure functions over the pool (`registered`,
  `active`) and the vote. It holds both the code as written and the guarded
  gate (see Findings).
- `Admission`: the walk over the queue as a recursive function `Drain`, the
  forward walk `Scanned` that the loop follows, and the `list.remove` loop.
- `Merkle`: the level-halving fold as a recursive specification, and the
  source's `while` loop proved against it.
- `Sectors`: the round-robin split, as the source's loop builds it.
- `Orbits`: the `Orbit` class (add, Merkle update, seal, sectors, fullness).
- `Network`: the `OrbitChainNetwork` class. Its invariant `Valid()` says:
  - the orbits form a chain (`Chained`): orbit `i` is numbered `i`, every
    orbit but the last is sealed, and each later sealed orbit carries its
    predecessor's orbital hash;
  - the index and the counters match the chain;
  - validators sit at their registration angles;
  - a full orbit is sealed.

  Every public method keeps `Valid()`. `process_pending_transactions` is
  specified against `Drain`, and the lemmas in `Admission` say what that
  walk does.

Nondeterminism and foreign code become parameters:

- SHA-256 with hex truncation, and `json.dumps` of the seal record, are the
  `Hasher`.
- `time.time()` and `random.randint(0, 9999)` in the transaction id are the
  `clock` and `draw` parameters.
- `datetime.now()` is a `Timestamp` parameter (`created`, `genesisStamp`,
  `now`).
- The `%H:%M:%S.%f` rendering in `to_dict` is a `render` parameter.

## Model

| member | source | states |
|---|---|---|
| Digests.EmptyRootIsZeros | Orbitchain.py:101-103 | the root of an empty list is sixteen '0' characters |
| Transactions.CreateTransaction | Orbitchain.py:15-31 | the id is the first 12 characters of the hashed (time, draw) nonce; the fields are the arguments; the tag is the 16-character hash of sender, receiver, data and creation time |
| Transactions.Sign | Orbitchain.py:28-31 | the content tag is the hash of sender, receiver, data and creation time, 16 characters long |
| Transactions.TagDependsOnContentOnly | Orbitchain.py:28-31 | the tag does not depend on the id inputs or the type: transactions with equal content and creation time get equal tags |
| Transactions.CreatedWellFormedIff | Orbitchain.py:59-68 | a constructed transaction passes the structural check exactly when sender and receiver are non-empty |
| Transactions.WellFormed | Orbitchain.py:62-65 | the structural check as a definition: a tag of at least ten characters and a non-empty sender and receiver (Validator.ValidateTransaction is proved to return it) |
| Transactions.ToDict | Orbitchain.py:33-43 | the dictionary has exactly the seven keys, each mapped to its field (the timestamp rendered) |
| Transactions.ToDictDeterminesFields | Orbitchain.py:33-43 | equal dictionaries mean equal fields, and equal transactions when the timestamps agree |
| Validators.Validator.constructor | Orbitchain.py:51-57 | a new validator is active, at angle 0, with reputation 100 and no passed checks |
| Validators.Validator.ValidateTransaction | Orbitchain.py:59-68 | true exactly when the tag has at least 10 characters and sender and receiver are non-empty; the counter goes up by one exactly then |
| Validators.SectorPosition | Orbitchain.py:184 | the angle `k * (360 div max(1, k + 1))` is in [0, 360) |
| Consensus.CountTrueCounts | Orbitchain.py:232 | counting the active flags gives the size of the set of active positions |
| Consensus.AsWrittenFaultsWithoutActive | Orbitchain.py:232 | with validators registered and none active, the gate as written raises ZeroDivisionError |
| Consensus.GuardedRejectsWithoutActive | Orbitchain.py:224-233 | with validators registered and none active, the guarded gate rejects |
| Consensus.GuardedAgreesWithAsWritten | Orbitchain.py:224-233 | wherever the code as written does not raise, the guarded gate gives the same verdict |
| Consensus.Approves | Orbitchain.py:222-233 | the gate's verdict as a definition: everything passes without validators, otherwise a transaction passes when it is well formed and some validator is active (ApprovesByVote ties it to the vote) |
| Consensus.ApprovesByVote | Orbitchain.py:222-233 | the plain verdict (no validators, or some active and well formed) is exactly the 67% vote over the approvals the active validators give |
| Consensus.SameCheckSameVerdict | Orbitchain.py:228-229 | the verdict depends on a transaction only through the structural check |
| Admission.Drain | Orbitchain.py:207-220 | the walk as a recursive definition, front to back, admitting approved entries while room is left; it never leaves more unvisited entries than the queue has |
| Admission.DrainSplitsQueue | Orbitchain.py:207-216 | the walk visits a prefix of the queue and leaves the suffix; in the prefix it admits exactly the approved entries and skips exactly the rejected ones, both in order; it admits at most `room` and stops early only when the room is used up |
| Admission.DrainStopsAfterAdmission | Orbitchain.py:209-216 | a walk that stops early stops right after an admission: the last entry it looked at was approved |
| Admission.DrainRoomLeftBeforeLast | Orbitchain.py:207-216 | the walk looked at its last entry while room was left: the entries before it were approved fewer than `room` times, so together with DrainSplitsQueue and DrainStopsAfterAdmission the stop point is fixed |
| Admission.DrainTakesAllItCan | Orbitchain.py:207-216 | if the orbit did not fill, the whole queue was visited and every skipped entry was rejected |
| Admission.DrainKeepsEverything | Orbitchain.py:206-220 | admitted, skipped and unvisited together are the queue as a multiset, and their lengths add up |
| Admission.DrainAdmitsApproved | Orbitchain.py:208-210 | every admitted transaction was approved by the gate |
| Admission.RemoveFirst | Orbitchain.py:220 | `list.remove` of a present entry: the queue gets one entry shorter |
| Admission.RemoveFirstDropsOne | Orbitchain.py:220 | removing an entry takes exactly one copy of it out of the queue |
| Admission.RemoveAll | Orbitchain.py:219-220 | the removal loop computes RemoveEach: first occurrences removed in order, ValueError on a missing entry |
| Admission.RemovingAdmittedLeavesRest | Orbitchain.py:218-220 | removing the admitted transactions never raises and leaves the skipped ones followed by the unvisited ones, in queue order |
| Admission.ScannedResumes | Orbitchain.py:207-216 | while room is left, the front-to-back walk so far followed by Drain on the rest is the whole Drain |
| Admission.ScanFinished | Orbitchain.py:207-216 | when the forward walk ends or the room is used up, it is the whole walk, and the visited part is the first `j` entries |
| Merkle.NextLevel | Orbitchain.py:107-115 | one level up has ⌈n/2⌉ entries |
| Merkle.NextLevelEntries | Orbitchain.py:109-114 | entry `k` of the next level is the hash of entry `2k` joined with its right neighbour, or with itself when it is the odd last one |
| Merkle.MerkleRoot | Orbitchain.py:99-116 | the root as a recursive definition: EmptyRoot for no leaves, the leaf itself for one, otherwise the root of the next level |
| Merkle.RootOfSeveralIsDigest | Orbitchain.py:107-116 | with two or more leaves the root is a value the hash produced, so it has 16 characters |
| Merkle.RootOfDigestsIsDigest | Orbitchain.py:99-116 | a non-empty list of 16-character tags has a 16-character root |
| Merkle.HashLevel | Orbitchain.py:108-115 | the inner `for` loop computes exactly the next level |
| Merkle.ComputeMerkleRoot | Orbitchain.py:99-116 | the `while` loop terminates and yields the recursive root: EmptyRoot for no leaves, otherwise the single value left |
| Sectors.Sector | Orbitchain.py:138-140 | sector `i` as the source's loop builds it: the positions in order, each one with remainder `i` appended (SectorAt says which they are) |
| Sectors.SectorAt | Orbitchain.py:134-142 | sector `i` holds exactly the entries at positions i, i + n, i + 2n, ... below the length, in that order |
| Sectors.PositionInSector | Orbitchain.py:138-140 | the entry at position `p` is in sector `p % n`, at place `p / n` |
| Sectors.SectorSizesSum | Orbitchain.py:134-142 | the sizes of sectors 0 .. n-1 add up to the number of transactions |
| Orbits.Leaves | Orbitchain.py:106 | the Merkle leaves are the transactions' tags, one per transaction, in order |
| Orbits.FloorMod | Orbitchain.py:139 | Python's `%`: for a positive divisor the remainder is in [0, n), for a negative one it is in (n, 0] |
| Orbits.EmptySectors | Orbitchain.py:136 | the dictionary has one empty list for each key in 0 .. n-1 and no other key |
| Orbits.Orbit.constructor | Orbitchain.py:77-86 | a new orbit is open and empty, with the given number, capacity and time, and empty hashes and root |
| Orbits.Orbit.IsFull | Orbitchain.py:144-146 | the definition: the list has reached the capacity (FullMeansAtCapacity: exactly the capacity under the invariant) |
| Orbits.Orbit.FullMeansAtCapacity | Orbitchain.py:144-146 | under the invariant, full means holding exactly the capacity |
| Orbits.Orbit.AddTransaction | Orbitchain.py:88-97 | succeeds exactly when open and below capacity; on success the list is the old list plus `tx` and the root is recomputed; on failure neither the list nor the root changes; the capacity bound and the root invariant hold after |
| Orbits.Orbit.UpdateMerkleRoot | Orbitchain.py:99-116 | the root becomes the Merkle root of the current tags (EmptyRoot for none); the invariant survives except on a sealed empty orbit, whose orbital hash the new root no longer matches |
| Orbits.Orbit.SealOrbit | Orbitchain.py:118-132 | sealed, with the given previous hash and the orbital hash of the seal record; resealing a sealed orbit with the same previous hash keeps its orbital hash |
| Orbits.Orbit.GetSectors | Orbitchain.py:134-142 | for n > 0, the keys are 0 .. n-1 and sector i is the round-robin Sector i; for n = 0 it raises ZeroDivisionError and for n < 0 KeyError, unless the orbit is empty, when the result is the empty dictionary |
| Orbits.AddAfterSeal | Orbitchain.py:90-91 | after a seal, an addition changes neither the transactions nor the root |
| Network.ChainedAt | Orbitchain.py:168-177 | in a chain, orbit `i` is valid and numbered `i`; every orbit but the last is sealed; orbit 0 is the genesis orbit; each later orbit has the default capacity and, once sealed, its predecessor's orbital hash |
| Network.ConsistentAfterOpen | Orbitchain.py:237-240 | opening an empty orbit moves the index and orbit counter by one and keeps the transaction total |
| Network.NewGenesisOrbit | Orbitchain.py:168-173 | the genesis orbit is sealed with one system transaction and an empty previous hash, and forms a chain alone |
| Network.OpenOrbit | Orbitchain.py:237-239 | a new empty open orbit of the default capacity, numbered by its position, continues the chain |
| Network.SealLast | Orbitchain.py:244-249 | the last orbit is sealed with its predecessor's orbital hash, or "" for the genesis orbit; the chain shape holds; a reseal keeps the orbital hash |
| Network.CollectApprovals | Orbitchain.py:227-230 | the approvals are the number of active validators if the transaction is well formed, else 0; each active validator's counter goes up exactly when it passes, and inactive ones are untouched |
| Network.ValidateTransactionConsensus | Orbitchain.py:222-233 | approves exactly when the 67% vote holds over the active validators (everything with no validators); the counters move as in CollectApprovals |
| Network.Offer | Orbitchain.py:208-210 | one entry: the gate's verdict, and an approved transaction is appended to the open orbit |
| Network.SealIfFull | Orbitchain.py:213-215 | the orbit is sealed exactly when it is full, with the given previous hash |
| Network.Visit | Orbitchain.py:207-215 | one loop turn moves the walk, the orbit and the well-formed count on by one entry |
| Network.Sweep | Orbitchain.py:207-216 | the loop ends at the end of the queue or when the orbit is full, with the forward walk matching the orbit's new entries |
| Network.AdmitPending | Orbitchain.py:206-216 | what is admitted is Drain's admitted list; it is appended to the orbit; the orbit is sealed with `prev` exactly when the room is used up; each active validator's counter grows by the number of visited well-formed entries |
| Network.FillLast | Orbitchain.py:198-216 | AdmitPending on the chain's last orbit, sealed with its predecessor's hash; the chain holds and the total grows by the admitted count |
| Network.Dequeue | Orbitchain.py:218-220 | the queue after removal is the skipped entries followed by the unvisited ones |
| Network.PlacedAt | Orbitchain.py:181-185 | validator `k` of the registry sits at SectorPosition(k) |
| Network.OrbitChainNetwork.constructor | Orbitchain.py:151-166 | a new network has only the genesis orbit, a new object, with no validators, an empty queue, index 0, and both counters at 1 |
| Network.OrbitChainNetwork.CreateGenesisOrbit | Orbitchain.py:168-177 | the genesis orbit is orbit 0: sealed, one system transaction, previous hash ""; both counters are 1 |
| Network.OrbitChainNetwork.AddValidator | Orbitchain.py:181-186 | the validator is appended at angle SectorPosition(k) for k earlier validators, and earlier validators keep their angles |
| Network.OrbitChainNetwork.SubmitTransaction | Orbitchain.py:188-191 | the queue is the old queue plus `tx` |
| Network.OrbitChainNetwork.CreateNewOrbit | Orbitchain.py:235-242 | one new empty open orbit at the end, the old orbits kept, the index and orbit counter up by one |
| Network.OrbitChainNetwork.SealCurrentOrbit | Orbitchain.py:244-250 | the current orbit is sealed with its predecessor's orbital hash ("" at index 0), its contents unchanged; a reseal keeps the orbital hash |
| Network.OrbitChainNetwork.OpenIfNeeded | Orbitchain.py:198-203 | a new orbit exactly when the current one is full or sealed; the room for the walk is unchanged |
| Network.OrbitChainNetwork.AdmitIntoCurrent | Orbitchain.py:205-220 | the walk into the open current orbit, its seal, the counter growth and the queue removal, all as Drain says |
| Network.OrbitChainNetwork.Record | Orbitchain.py:211 | the total grows by the admitted count and the queue is replaced by the rest |
| Network.OrbitChainNetwork.ProcessPendingTransactions | Orbitchain.py:193-220 | no change for an empty queue; otherwise a new orbit if the current one is full or sealed; the admitted transactions are Drain's, appended in order; the orbit is sealed exactly when it fills; the queue keeps the skipped and unvisited ones in order; the total grows by the admitted count; a sealed current orbit is left entirely unchanged; the invariant holds |
| Network.OrbitChainNetwork.ProcessQueue | Orbitchain.py:197-220 | the non-empty-queue case of ProcessPendingTransactions, including that a sealed current orbit is left entirely unchanged |
| Network.OrbitChainNetwork.GetNetworkStatus | Orbitchain.py:252-267 | the status reports the number of orbits, pending transactions and registered validators, and the active validators as a count of the set of active ones, never more than the registered |
| Network.StatusOfValid | Orbitchain.py:252-267 | in every reachable state the status's current orbit is the last one and its total is what the orbits hold |
| Network.ValidChain | Orbitchain.py:168-177 | in every reachable state the index is the last position; orbit `i` is numbered `i` and within capacity; all but the last orbit are sealed; orbit 0 is the genesis orbit; every later sealed orbit carries its predecessor's orbital hash |
| Network.SingleTransactionWithoutValidators | Orbitchain.py:151-220 | a new network without validators, one submitted transaction and one step: a second orbit is opened and holds exactly that transaction, the queue is empty and the total is 2 |
| Network.MalformedTransactionStaysPending | Orbitchain.py:151-233 | a new network with one validator and a transaction with an empty sender: after one step the new orbit is empty and the transaction is still queued |

## Left out

- Printing: `show_visual_network` and `show_orbit_detail`, the `print` calls
  inside the engine methods, `__str__`, the demo driver, the command loop and
  `__main__`. All of it is console output or scripted input.
- SHA-256, hex rendering, truncation and `json.dumps`: foreign calls,
  modelled together as the `Hasher` parameter. Its results have 16
  characters, and an id is the first 12.
- Clocks and randomness: `datetime.now()`, `time.time()` and
  `random.randint` are parameters. Id uniqueness is not enforced.
- Default arguments are explicit parameters: `tx_type="transfer"`,
  `stake=100.0`, `max_transactions=8` (DefaultCapacity),
  `previous_hash=""` and `name="OrbitChain-MainNet"`. Inside the engine
  only the genesis call (Orbitchain.py:170-173) passes other values for
  the capacity (1) and the type ("genesis"). Sealing a later orbit
  (Orbitchain.py:249) passes its predecessor's orbital hash, and the
  model does the same.
- Floating point: the 0.67 threshold becomes `100 * approvals >= 67 *
  active`. `stake` is an informational `real`, and `reputation` an
  informational `int`.
- `get_network_status`: `uptime_seconds` and the threshold string are left
  out (a clock and string formatting). So are `network_hash_rate`, which
  nothing writes, the unused `threading` import and `validators_confirmed`,
  which nothing writes.
- Network.OrbitChainNetwork.ProcessPendingTransactions: the source seals
  and breaks inside the loop. The model tests fullness before each entry
  and seals after the loop. Since the orbit starts with room, both stop at
  the same entry with the same seal. The counter grows once by the
  admitted count rather than once per admission.
- Network.OrbitChainNetwork.ProcessPendingTransactions: with validators
  registered and none active, the source raises ZeroDivisionError at the
  first gate call, after any new orbit is opened. The model reaches the
  same state (the new orbit opened, nothing admitted, the queue and the
  counters unchanged) and returns instead of raising (see Findings).
- Admission.RemoveFirst: `list.remove` compares by identity, since
  `Transaction` has no `__eq__`. The model compares values. Equal values
  get equal verdicts, so the remaining queue is the same list of values.
- Network.OrbitChainNetwork.AddValidator: requires that the validator
  object is not already registered. Registering one object twice would
  alias two registry slots, and the model does not capture that.
- Network.ValidateTransactionConsensus: requires the validators to be
  distinct objects (as registration guarantees), for the same reason.
- Network.OrbitChainNetwork.CreateNewOrbit: requires the current orbit to
  be sealed. Every call inside the engine meets this: it is called only
  when the orbit is full or sealed, and full orbits are sealed. A direct
  call on an open orbit would leave an open orbit inside the chain, which
  the chain invariant excludes.
- Orbits.Orbit.SealOrbit: there is no guard against a second seal, and the
  model follows the code. It proves that a second seal with the same
  previous hash gives the same orbital hash, so that case is harmless. The
  network only reseals that way.

## Findings

| source | as written | input that shows it | evidently intended | confidence | as-written member | corrected member |
|---|---|---|---|---|---|---|
| Orbitchain.py:232 | the approval rate divides by the number of active validators, even when there are none | at least one registered validator, all inactive: the divisor is 0, ZeroDivisionError (Consensus.AsWrittenFaultsWithoutActive) | gate conditions never raise; with no active validator nothing can reach 67% approval, so the gate rejects (Consensus.GuardedRejectsWithoutActive, and Consensus.GuardedAgreesWithAsWritten elsewhere) | not executed | Consensus.ConsensusAsWritten | Consensus.ConsensusReached |
