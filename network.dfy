/** The ledger: a chain of orbits, a FIFO queue of pending transactions, a
    validator pool and the processing step that moves transactions from the
    queue into the open orbit. */
module Network {
  import opened Digests
  import opened Transactions
  import opened Outcomes
  import opened Validators
  import opened Orbits
  import opened Consensus
  import opened Admission

  /** Transactions held over all orbits of `os`. */
  ghost function Admitted(os: seq<Orbit>): int
    reads os`transactions
  {
    if os == [] then 0 else Admitted(os[..|os| - 1]) + |os[|os| - 1].transactions|
  }

  /** The validators' active flags, in registration order. */
  function ActiveFlags(vs: seq<Validator>): (flags: seq<bool>)
    reads vs`isActive
    ensures |flags| == |vs| && forall k :: 0 <= k < |vs| ==> flags[k] == vs[k].isActive
  {
    if vs == [] then [] else ActiveFlags(vs[..|vs| - 1]) + [vs[|vs| - 1].isActive]
  }

  /** `b` follows `a` in the chain: once sealed it carries `a`'s orbital hash. */
  ghost predicate Linked(a: Orbit, b: Orbit)
    reads a, b
  {
    b.isSealed ==> b.previousHash == a.orbitalHash
  }

  /** The shape of a chain of orbits built with hasher `h`, one orbit at a
      time: each orbit is a new object, valid, numbered by its position and
      built with `h`; orbit 0 is the sealed genesis orbit with one
      transaction and an empty predecessor hash; every later orbit has the
      default capacity, follows a sealed orbit and, once sealed, links to
      that orbit's orbital hash. */
  ghost predicate Chained(os: seq<Orbit>, h: Hasher)
    reads os
    decreases |os|
  {
    os == [] ||
    var p, o := os[..|os| - 1], os[|os| - 1];
    Chained(p, h) && o !in p && o.Valid() && o.orbitNumber == |p| && o.hash == h &&
    (p == [] ==> o.maxTransactions == 1 && |o.transactions| == 1 && o.isSealed && o.previousHash == "") &&
    (p != [] ==> o.maxTransactions == DefaultCapacity && p[|p| - 1].isSealed && Linked(p[|p| - 1], o))
  }

  /** The chain read orbit by orbit: orbit `i` is valid, numbered `i` and
      built with `h`, is sealed unless it is the last, is the genesis orbit
      when `i` is 0 and otherwise has the default capacity and links to
      orbit `i - 1`. */
  lemma {:induction false} ChainedAt(os: seq<Orbit>, h: Hasher, i: int)
    requires Chained(os, h) && 0 <= i < |os|
    ensures os[i].Valid() && os[i].orbitNumber == i && os[i].hash == h
    ensures i < |os| - 1 ==> os[i].isSealed
    ensures i == 0 ==> os[0].maxTransactions == 1 && |os[0].transactions| == 1 && os[0].isSealed && os[0].previousHash == ""
    ensures i > 0 ==> os[i].maxTransactions == DefaultCapacity && Linked(os[i - 1], os[i])
    decreases |os|
  {
    var p := os[..|os| - 1];
    if i < |os| - 1 {
      ChainedAt(p, h, i);
      assert p[i] == os[i];
      if i > 0 {
        assert p[i - 1] == os[i - 1];
      }
      if i == |os| - 2 {
        assert p[|p| - 1] == os[i];
      }
    }
  }

  /** No orbit appears twice in a chain. */
  lemma {:induction false} ChainedDistinct(os: seq<Orbit>, h: Hasher, i: int, j: int)
    requires Chained(os, h) && 0 <= i < j < |os|
    ensures os[i] != os[j]
    decreases |os|
  {
    var p := os[..|os| - 1];
    if j < |os| - 1 {
      ChainedDistinct(p, h, i, j);
      assert p[i] == os[i] && p[j] == os[j];
    } else {
      assert os[i] == p[i];
    }
  }

  /** Appending an orbit that fits the next slot keeps the chain shape. */
  lemma Extend(os: seq<Orbit>, o: Orbit, h: Hasher)
    requires Chained(os, h) && o !in os
    requires o.Valid() && o.orbitNumber == |os| && o.hash == h
    requires |os| == 0 ==> o.maxTransactions == 1 && |o.transactions| == 1 && o.isSealed && o.previousHash == ""
    requires |os| > 0 ==> o.maxTransactions == DefaultCapacity && os[|os| - 1].isSealed && Linked(os[|os| - 1], o)
    ensures Chained(os + [o], h)
  {
    PrefixOfSnoc(os, o);
  }

  /** Dropping the last orbit keeps the chain shape, and the last orbit is
      not among the others. */
  lemma Shrink(os: seq<Orbit>, h: Hasher)
    requires Chained(os, h) && |os| >= 1
    ensures Chained(os[..|os| - 1], h) && os[|os| - 1] !in os[..|os| - 1]
    ensures os == os[..|os| - 1] + [os[|os| - 1]]
  {
    SplitLast(os);
  }

  /** Appending one element keeps the sequence as a prefix. */
  lemma PrefixOfSnoc<T>(s: seq<T>, x: T)
    ensures (s + [x])[..|s|] == s && (s + [x])[|s|] == x
  {
  }

  /** A non-empty sequence is its prefix followed by its last element. */
  lemma SplitLast<T>(s: seq<T>)
    requires |s| >= 1
    ensures s == s[..|s| - 1] + [s[|s| - 1]]
  {
  }

  /** The network's bookkeeping agrees with its chain `os`: there is at
      least the genesis orbit, `index` points at the last orbit, and the
      orbit and transaction counters match the chain. */
  ghost predicate Consistent(os: seq<Orbit>, h: Hasher, index: int, orbitCount: int, txCount: int)
    reads os
  {
    |os| >= 1 && index == |os| - 1 && orbitCount == |os| && Chained(os, h) && txCount == Admitted(os)
  }

  /** Appending an open, empty orbit moves the index and the orbit counter
      on by one and leaves the transaction counter as it was. */
  lemma ConsistentAfterOpen(os: seq<Orbit>, o: Orbit, h: Hasher, index: int, orbitCount: int, txCount: int)
    requires Consistent(os, h, index, orbitCount, txCount) && Chained(os + [o], h) && o.transactions == []
    ensures Consistent(os + [o], h, index + 1, orbitCount + 1, txCount)
  {
    AdmittedSnoc(os, o);
  }

  /** The total over a chain grows by the size of an appended orbit. */
  lemma AdmittedSnoc(os: seq<Orbit>, o: Orbit)
    ensures Admitted(os + [o]) == Admitted(os) + |o.transactions|
  {
    assert (os + [o])[..|os|] == os;
  }

  /** The genesis orbit: capacity one, one system transaction, sealed at
      once with an empty predecessor hash; alone it is a chain. */
  method NewGenesisOrbit(h: Hasher, genesisStamp: Timestamp, clock: Timestamp, draw: int, created: Timestamp)
    returns (genesis: Orbit)
    requires 0 <= draw <= 9999
    ensures fresh(genesis) && Chained([genesis], h)
    ensures genesis.transactions ==
              [CreateTransaction(h, "SYSTEM", "NETWORK", "Genesis orbit created", "genesis", clock, draw, created)]
    ensures genesis.timestamp == genesisStamp && genesis.isSealed && genesis.previousHash == ""
  {
    genesis := new Orbit(0, 1, genesisStamp, h);
    var tx := CreateTransaction(h, "SYSTEM", "NETWORK", "Genesis orbit created", "genesis", clock, draw, created);
    var ok := genesis.AddTransaction(tx);
    genesis.SealOrbit("");
    Extend([], genesis, h);
  }

  /** A new, empty, open orbit of the default capacity that continues the
      chain `os` once its last orbit is sealed. */
  method OpenOrbit(os: seq<Orbit>, h: Hasher, now: Timestamp) returns (o: Orbit)
    requires Chained(os, h) && |os| >= 1 && os[|os| - 1].isSealed
    ensures fresh(o) && Chained(os + [o], h)
    ensures o.orbitNumber == |os| && o.maxTransactions == DefaultCapacity && o.timestamp == now
    ensures o.transactions == [] && !o.isSealed
  {
    o := new Orbit(|os|, DefaultCapacity, now, h);
    Extend(os, o, h);
  }

  /** Seals the last orbit `o` of the chain `os` with its predecessor's
      orbital hash ("" when it is the genesis orbit); the chain shape holds
      after. */
  method SealLast(os: seq<Orbit>, h: Hasher, o: Orbit)
    requires Chained(os, h) && |os| >= 1 && o == os[|os| - 1]
    modifies o`previousHash, o`isSealed, o`orbitalHash
    ensures Chained(os, h) && o.isSealed
    ensures o.previousHash == if |os| > 1 then os[|os| - 2].orbitalHash else ""
    ensures old(o.isSealed) ==> o.orbitalHash == old(o.orbitalHash)
  {
    var previousHash := if |os| > 1 then os[|os| - 2].orbitalHash else "";
    ChainedAt(os, h, |os| - 1);
    Shrink(os, h);
    o.SealOrbit(previousHash);
    Extend(os[..|os| - 1], o, h);
  }

  /** The voting round of the consensus gate: every active validator
      checks `tx` (inactive ones are not asked, so their counters stay);
      the result is the number of approvals. */
  method CollectApprovals(vs: seq<Validator>, tx: Transaction) returns (approvals: nat)
    requires Distinct(vs)
    modifies vs`validatedCount
    ensures approvals == if WellFormed(tx) then CountTrue(ActiveFlags(vs)) else 0
    ensures forall k :: 0 <= k < |vs| ==>
              vs[k].validatedCount ==
              old(vs[k].validatedCount) + (if vs[k].isActive && WellFormed(tx) then 1 else 0)
  {
    DistinctApart(vs);
    ghost var flags := ActiveFlags(vs);
    approvals := 0;
    var i := 0;
    while i < |vs|
      invariant 0 <= i <= |vs|
      invariant ActiveFlags(vs) == flags
      invariant approvals == if WellFormed(tx) then CountTrue(flags[..i]) else 0
      invariant forall k :: 0 <= k < i ==>
                  vs[k].validatedCount ==
                  old(vs[k].validatedCount) + (if vs[k].isActive && WellFormed(tx) then 1 else 0)
      invariant forall k :: i <= k < |vs| ==> vs[k].validatedCount == old(vs[k].validatedCount)
    {
      assert flags[..i + 1][..i] == flags[..i];
      if vs[i].isActive {
        var ok := vs[i].ValidateTransaction(tx);
        if ok {
          approvals := approvals + 1;
        }
      }
      i := i + 1;
    }
    assert flags[..i] == flags;
  }

  /** The consensus gate of `validate_transaction_consensus`, over the
      network's validator list: with no validators every transaction passes;
      otherwise the active validators vote and `tx` is approved when at
      least 67% of them approve. */
  method ValidateTransactionConsensus(vs: seq<Validator>, tx: Transaction) returns (approved: bool)
    requires Distinct(vs)
    modifies vs`validatedCount
    ensures approved == Approves(Pool(|vs|, CountTrue(ActiveFlags(vs))), tx)
    ensures var pool := Pool(|vs|, CountTrue(ActiveFlags(vs)));
            approved <==> ConsensusReached(pool.registered, pool.active, Votes(pool, tx))
    ensures forall k :: 0 <= k < |vs| ==>
              vs[k].validatedCount ==
              old(vs[k].validatedCount) + (if vs[k].isActive && WellFormed(tx) then 1 else 0)
  {
    ApprovesByVote(Pool(|vs|, CountTrue(ActiveFlags(vs))), tx);
    if |vs| == 0 {
      return true;
    }
    var approvals := CollectApprovals(vs, tx);
    var active := CountTrue(ActiveFlags(vs));
    if active == 0 {
      // the source divides by zero here; the model rejects
      return false;
    }
    return 100 * approvals >= 67 * active;
  }

  /** Adds `tx` to an open orbit that has room; the addition succeeds. */
  method Append(o: Orbit, tx: Transaction)
    requires o.Valid() && !o.isSealed && |o.transactions| < o.maxTransactions
    modifies o`transactions, o`merkleRoot
    ensures o.Valid() && !o.isSealed && o.transactions == old(o.transactions) + [tx]
  {
    var ok := o.AddTransaction(tx);
  }

  /** Seals `o` with `prev` when it is full and leaves it alone otherwise. */
  method SealIfFull(o: Orbit, prev: string)
    requires o.Valid() && !o.isSealed
    modifies o`isSealed, o`previousHash, o`orbitalHash
    ensures o.Valid() && (o.isSealed <==> o.IsFull()) && (o.isSealed ==> o.previousHash == prev)
  {
    if o.IsFull() {
      o.SealOrbit(prev);
    }
  }

  /** One entry of the processing walk: the consensus gate decides, and an
      approved transaction is added to the open orbit, which has room. */
  method Offer(vs: seq<Validator>, o: Orbit, tx: Transaction, ghost flags: seq<bool>) returns (approved: bool)
    requires Distinct(vs) && flags == ActiveFlags(vs)
    requires o.Valid() && !o.isSealed && |o.transactions| < o.maxTransactions
    modifies o`transactions, o`merkleRoot, vs`validatedCount
    ensures approved == Approves(Pool(|vs|, CountTrue(flags)), tx) && flags == ActiveFlags(vs)
    ensures o.Valid() && !o.isSealed
    ensures o.transactions == old(o.transactions) + if approved then [tx] else []
    ensures forall k :: 0 <= k < |vs| ==>
              vs[k].validatedCount == old(vs[k].validatedCount) + (if flags[k] && WellFormed(tx) then 1 else 0)
  {
    approved := ValidateTransactionConsensus(vs, tx);
    assert ActiveFlags(vs) == flags;
    if approved {
      Append(o, tx);
    }
  }

  /** Where the loop of AdmitPending stands after the first `j` entries of
      the snapshot: the forward walk matches what was admitted and skipped,
      the orbit holds `base` followed by what was admitted, and `seen`
      entries so far were well formed. */
  ghost predicate Progress(vs: seq<Validator>, o: Orbit, snapshot: seq<Transaction>, j: nat,
                           processed: seq<Transaction>, skipped: seq<Transaction>, left: nat, seen: nat,
                           base: seq<Transaction>, room: nat, pool: Pool, flags: seq<bool>)
    reads vs`isActive, o`transactions, o`merkleRoot, o`isSealed, o`orbitalHash, o`previousHash
  {
    j <= |snapshot| && Distinct(vs) && flags == ActiveFlags(vs) && pool == Pool(|vs|, CountTrue(flags)) &&
    o.Valid() && !o.isSealed && o.transactions == base + processed &&
    room == o.maxTransactions - |base| && left == room - |processed| &&
    Scanned(snapshot, j, room, pool) == Scan(processed, skipped, left) &&
    (j == 0 || Scanned(snapshot, j - 1, room, pool).left > 0) &&
    seen == CountWellFormed(snapshot[..j])
  }

  /** One turn of the loop of AdmitPending: entry `j` is offered, and the
      walk so far, the orbit and the count of well-formed entries move on by
      that entry. */
  method Visit(vs: seq<Validator>, o: Orbit, snapshot: seq<Transaction>, j: nat, processed: seq<Transaction>,
               ghost skipped: seq<Transaction>, ghost left: nat, ghost seen: nat, ghost base: seq<Transaction>,
               ghost room: nat, ghost pool: Pool, ghost flags: seq<bool>)
    returns (approved: bool)
    requires j < |snapshot| && !o.IsFull()
    requires Progress(vs, o, snapshot, j, processed, skipped, left, seen, base, room, pool, flags)
    modifies o`transactions, o`merkleRoot, vs`validatedCount
    ensures var tx := snapshot[j];
      if approved then
        Progress(vs, o, snapshot, j + 1, processed + [tx], skipped, left - 1, seen + (if WellFormed(tx) then 1 else 0), base, room, pool, flags)
      else
        Progress(vs, o, snapshot, j + 1, processed, skipped + [tx], left, seen + (if WellFormed(tx) then 1 else 0), base, room, pool, flags)
    ensures forall k :: 0 <= k < |vs| ==>
              vs[k].validatedCount == old(vs[k].validatedCount) + (if flags[k] && WellFormed(snapshot[j]) then 1 else 0)
  {
    var tx := snapshot[j];
    CountWellFormedStep(snapshot, j);
    approved := Offer(vs, o, tx, flags);
    if approved {
      Associative(base, processed, [tx]);
    }
  }

  /** The loop of `process_pending_transactions` over a snapshot of the
      queue, into the open orbit `o`: it stops at the end of the snapshot or
      once the orbit is full, having visited the first `j` entries. */
  method Sweep(vs: seq<Validator>, o: Orbit, snapshot: seq<Transaction>,
               ghost room: nat, ghost pool: Pool, ghost flags: seq<bool>)
    returns (processed: seq<Transaction>, j: nat, ghost skipped: seq<Transaction>, ghost left: nat, ghost seen: nat)
    requires Progress(vs, o, snapshot, 0, [], [], room, 0, o.transactions, room, pool, flags)
    modifies o`transactions, o`merkleRoot, vs`validatedCount
    ensures Progress(vs, o, snapshot, j, processed, skipped, left, seen, old(o.transactions), room, pool, flags)
    ensures j == |snapshot| || o.IsFull()
    ensures forall k :: 0 <= k < |vs| ==>
              vs[k].validatedCount == old(vs[k].validatedCount) + (if flags[k] then seen else 0)
  {
    ghost var base := o.transactions;
    processed, skipped, left, seen := [], [], room, 0;
    j := 0;
    // the source breaks out right after sealing; testing fullness before
    // each entry and sealing after the loop does the same
    while j < |snapshot| && !o.IsFull()
      invariant Progress(vs, o, snapshot, j, processed, skipped, left, seen, base, room, pool, flags)
      invariant forall k :: 0 <= k < |vs| ==>
        vs[k].validatedCount == old(vs[k].validatedCount) + (if flags[k] then seen else 0)
    {
      var tx := snapshot[j];
      var approved := Visit(vs, o, snapshot, j, processed, skipped, left, seen, base, room, pool, flags);
      if approved {
        processed := processed + [tx];
        left := left - 1;
      } else {
        skipped := skipped + [tx];
      }
      seen := seen + if WellFormed(tx) then 1 else 0;
      j := j + 1;
    }
  }

  /** `process_pending_transactions` over a snapshot of the queue, into the
      open orbit `o` with `room` free places: each entry goes through the
      gate; an approved one is added; when the addition fills the orbit it
      is sealed with `prev` and the walk stops. The
      result is what was admitted, and it is what Drain says; every active
      validator checked each visited entry once. */
  method AdmitPending(vs: seq<Validator>, o: Orbit, prev: string, snapshot: seq<Transaction>,
                      ghost room: nat, ghost pool: Pool)
    returns (processed: seq<Transaction>)
    requires Distinct(vs) && pool == Pool(|vs|, CountTrue(ActiveFlags(vs)))
    requires o.Valid() && !o.isSealed && room == o.maxTransactions - |o.transactions| && room > 0
    modifies o`transactions, o`merkleRoot, o`isSealed, o`previousHash, o`orbitalHash, vs`validatedCount
    ensures var w := Drain(snapshot, room, pool);
      processed == w.admitted && o.transactions == old(o.transactions) + processed && o.Valid() &&
      (o.isSealed <==> |processed| == room) && (o.isSealed ==> o.previousHash == prev) &&
      forall k :: 0 <= k < |vs| ==>
        vs[k].validatedCount ==
        old(vs[k].validatedCount) + (if vs[k].isActive then CountWellFormed(Visited(snapshot, w)) else 0)
  {
    ghost var flags := ActiveFlags(vs);
    var j;
    ghost var skipped, left, seen;
    processed, j, skipped, left, seen := Sweep(vs, o, snapshot, room, pool, flags);
    ScanFinished(snapshot, j, room, pool);
    SealIfFull(o, prev);
  }

  /** Offers `snapshot` to the open last orbit of the chain `os`, sealing it
      with its predecessor's orbital hash once it fills; the chain shape
      holds after and its total grows by what was admitted. */
  method FillLast(os: seq<Orbit>, h: Hasher, vs: seq<Validator>, snapshot: seq<Transaction>,
                  ghost room: nat, ghost pool: Pool, ghost index: int, ghost orbitCount: int, ghost txCount: int)
    returns (processed: seq<Transaction>)
    requires Consistent(os, h, index, orbitCount, txCount) && !os[|os| - 1].isSealed
    requires Placed(vs) && pool == Pool(|vs|, CountTrue(ActiveFlags(vs)))
    requires room == os[|os| - 1].maxTransactions - |os[|os| - 1].transactions| && room > 0
    modifies os[|os| - 1], vs`validatedCount
    ensures Consistent(os, h, index, orbitCount, txCount + |processed|) && Placed(vs)
    ensures os[|os| - 1].IsFull() ==> os[|os| - 1].isSealed
    ensures var o, w := os[|os| - 1], Drain(snapshot, room, pool);
      processed == w.admitted && o.transactions == old(o.transactions) + processed &&
      (o.isSealed <==> |processed| == room) &&
      forall k :: 0 <= k < |vs| ==>
        vs[k].validatedCount ==
        old(vs[k].validatedCount) + (if vs[k].isActive then CountWellFormed(Visited(snapshot, w)) else 0)
  {
    var o := os[|os| - 1];
    var prev := if |os| > 1 then os[|os| - 2].orbitalHash else "";
    Shrink(os, h);
    PlacedDistinct(vs);
    ghost var p := os[..|os| - 1];
    AdmittedSnoc(p, o);
    processed := AdmitPending(vs, o, prev, snapshot, room, pool);
    Extend(p, o, h);
    AdmittedSnoc(p, o);
  }

  /** The removal loop after a walk: taking the admitted transactions off
      the queue never raises and leaves the skipped and unvisited ones. */
  method Dequeue(queue: seq<Transaction>, processed: seq<Transaction>, ghost room: nat, ghost pool: Pool)
    returns (rest: seq<Transaction>)
    requires processed == Drain(queue, room, pool).admitted
    ensures var w := Drain(queue, room, pool); rest == w.skipped + w.unvisited
  {
    var removed := RemoveAll(queue, processed);
    RemovingAdmittedLeavesRest(queue, room, pool);
    rest := removed.value;
  }

  /** No validator object appears twice: each is new to the ones before it. */
  ghost predicate Distinct(vs: seq<Validator>)
    decreases |vs|
  {
    vs == [] || (Distinct(vs[..|vs| - 1]) && vs[|vs| - 1] !in vs[..|vs| - 1])
  }

  /** Distinct validators sit at distinct indices. */
  lemma {:induction false} DistinctApart(vs: seq<Validator>)
    requires Distinct(vs)
    ensures forall i, j :: 0 <= i < j < |vs| ==> vs[i] != vs[j]
    decreases |vs|
  {
    if vs != [] {
      var p := vs[..|vs| - 1];
      DistinctApart(p);
      forall i, j | 0 <= i < j < |vs|
        ensures vs[i] != vs[j]
      {
        assert vs[i] == p[i];
        if j < |vs| - 1 {
          assert vs[j] == p[j];
        }
      }
    }
  }

  /** The registry built one validator at a time: each is a new object and
      sits at the sector position of its index. */
  ghost predicate Placed(vs: seq<Validator>)
    reads vs`sectorPosition
    decreases |vs|
  {
    vs == [] ||
    var p, v := vs[..|vs| - 1], vs[|vs| - 1];
    Placed(p) && v !in p && v.sectorPosition == SectorPosition(|p|)
  }

  /** Read validator by validator: validator `k` sits at SectorPosition(k). */
  lemma {:induction false} PlacedAt(vs: seq<Validator>, k: int)
    requires Placed(vs) && 0 <= k < |vs|
    ensures vs[k].sectorPosition == SectorPosition(k)
    decreases |vs|
  {
    if k < |vs| - 1 {
      var p := vs[..|vs| - 1];
      PlacedAt(p, k);
      assert p[k] == vs[k];
    }
  }

  /** A registry holds no validator twice. */
  lemma {:induction false} PlacedDistinct(vs: seq<Validator>)
    requires Placed(vs)
    ensures Distinct(vs)
    decreases |vs|
  {
    if vs != [] {
      PlacedDistinct(vs[..|vs| - 1]);
    }
  }

  /** The read-only snapshot `get_network_status` returns (uptime and the
      threshold string left out). */
  datatype NetworkStatus = NetworkStatus(
    networkName: string,
    totalOrbits: nat,
    totalTransactions: int,
    pendingTransactions: nat,
    activeValidators: nat,
    totalValidators: nat,
    currentOrbit: int)

  class OrbitChainNetwork {
    const name: string
    const hash: Hasher
    var orbits: seq<Orbit>
    var validators: seq<Validator>
    var pending: seq<Transaction>
    var currentOrbitIndex: int
    var totalTransactions: int
    var totalOrbits: int

    /** The orbit at the current index. */
    ghost function Current(): Orbit
      reads this`orbits
      requires |orbits| >= 1
    {
      orbits[|orbits| - 1]
    }

    /** What the consensus gate sees of the pool. */
    ghost function CurrentPool(): Pool
      reads this`validators, validators`isActive
    {
      Pool(|validators|, CountTrue(ActiveFlags(validators)))
    }

    /** The chain invariant, which holds in every reachable state: the orbits
        form a chain built with this network's hasher, the index points at the
        last one and the counters match the orbits. */
    ghost predicate OrbitChain()
      reads this`orbits, this`currentOrbitIndex, this`totalOrbits, this`totalTransactions, orbits
    {
      Consistent(orbits, hash, currentOrbitIndex, totalOrbits, totalTransactions)
    }

    /** The registry invariant: the validators were placed one by one. */
    ghost predicate Registry()
      reads this`validators, validators`sectorPosition
    {
      Placed(validators)
    }

    ghost predicate Chain()
      reads this`orbits, this`currentOrbitIndex, this`totalOrbits, this`totalTransactions, this`validators, orbits, validators`sectorPosition
    {
      OrbitChain() && Registry()
    }

    /** Chain() and, between operations, a full orbit is always sealed. */
    ghost predicate Valid()
      reads this`orbits, this`currentOrbitIndex, this`totalOrbits, this`totalTransactions, this`validators, orbits, validators`sectorPosition
    {
      Chain() && (Current().IsFull() ==> Current().isSealed)
    }

    /** Free places in the orbit the next processing step fills: those of
        the current orbit if it is open, else those of a new one. */
    ghost function Room(): (r: nat)
      reads this`orbits, this`currentOrbitIndex, this`totalOrbits, this`totalTransactions, this`validators, orbits, validators`sectorPosition
      requires Valid()
      ensures r > 0
    {
      if Current().isSealed then DefaultCapacity
      else Current().maxTransactions - |Current().transactions|
    }

    /** A new network holds only the genesis orbit. `genesisStamp` is the
        genesis orbit's creation time; `clock`, `draw` and `created` are the
        genesis transaction's id inputs and creation time. */
    constructor (name: string, hash: Hasher, genesisStamp: Timestamp,
                 clock: Timestamp, draw: int, created: Timestamp)
      requires 0 <= draw <= 9999
      ensures Valid() && this.name == name && this.hash == hash
      ensures |orbits| == 1 && currentOrbitIndex == 0 && orbits[0].orbitNumber == 0
      ensures orbits[0].isSealed && orbits[0].previousHash == ""
      ensures orbits[0].transactions ==
                [CreateTransaction(hash, "SYSTEM", "NETWORK", "Genesis orbit created", "genesis", clock, draw, created)]
      ensures validators == [] && pending == [] && fresh(orbits[0])
      ensures totalOrbits == 1 && totalTransactions == 1
    {
      this.name := name;
      this.hash := hash;
      orbits := [];
      validators := [];
      pending := [];
      currentOrbitIndex := 0;
      totalTransactions := 0;
      totalOrbits := 0;
      new;
      CreateGenesisOrbit(genesisStamp, clock, draw, created);
    }

    /** Builds the genesis orbit: capacity one, one system transaction,
        sealed at once with an empty predecessor hash. */
    method CreateGenesisOrbit(genesisStamp: Timestamp, clock: Timestamp, draw: int, created: Timestamp)
      requires orbits == [] && validators == [] && currentOrbitIndex == 0
      requires 0 <= draw <= 9999
      modifies this
      ensures Valid()
      ensures |orbits| == 1 && fresh(orbits[0]) && orbits[0].isSealed && orbits[0].previousHash == ""
      ensures orbits[0].transactions ==
                [CreateTransaction(hash, "SYSTEM", "NETWORK", "Genesis orbit created", "genesis", clock, draw, created)]
      ensures validators == [] && pending == old(pending) && currentOrbitIndex == 0
      ensures totalOrbits == 1 && totalTransactions == 1
    {
      var genesis := NewGenesisOrbit(hash, genesisStamp, clock, draw, created);
      AdmittedSnoc([], genesis);
      orbits := [genesis];
      totalOrbits := 1;
      totalTransactions := 1;
    }

    /** Registers `v` at the angle for its index; earlier validators keep theirs. */
    method AddValidator(v: Validator)
      requires Valid() && v !in validators
      modifies this`validators, v`sectorPosition
      ensures Valid()
      ensures validators == old(validators) + [v]
      ensures v.sectorPosition == SectorPosition(|old(validators)|)
      ensures forall k :: 0 <= k < |old(validators)| ==> validators[k].sectorPosition == old(validators[k].sectorPosition)
    {
      v.sectorPosition := SectorPosition(|validators|);
      PrefixOfSnoc(validators, v);
      validators := validators + [v];
    }

    /** Queues `tx`; nothing is checked or admitted here. */
    method SubmitTransaction(tx: Transaction)
      requires Valid()
      modifies this`pending
      ensures Valid()
      ensures pending == old(pending) + [tx]
    {
      pending := pending + [tx];
    }

    /** Opens a fresh, empty orbit after the current one and moves the index to it. */
    method CreateNewOrbit(now: Timestamp)
      requires Valid() && Current().isSealed
      modifies this`orbits, this`currentOrbitIndex, this`totalOrbits
      ensures Valid()
      ensures |orbits| == |old(orbits)| + 1 && orbits[..|old(orbits)|] == old(orbits)
      ensures fresh(Current()) && Current().transactions == [] && !Current().isSealed
      ensures Current().timestamp == now
      ensures currentOrbitIndex == old(currentOrbitIndex) + 1 && totalOrbits == old(totalOrbits) + 1
    {
      var newOrbit := OpenOrbit(orbits, hash, now);
      ConsistentAfterOpen(orbits, newOrbit, hash, currentOrbitIndex, totalOrbits, totalTransactions);
      PrefixOfSnoc(orbits, newOrbit);
      orbits := orbits + [newOrbit];
      currentOrbitIndex := currentOrbitIndex + 1;
      totalOrbits := totalOrbits + 1;
    }

    /** Seals the current orbit, linking it to its predecessor's orbital hash
        ("" for the genesis slot). Also callable by hand to close an orbit early. */
    method SealCurrentOrbit()
      requires Chain()
      modifies orbits[|orbits| - 1]
      ensures Valid()
      ensures Current().isSealed
      ensures Current().previousHash == if currentOrbitIndex > 0 then orbits[currentOrbitIndex - 1].orbitalHash else ""
      ensures Current().transactions == old(Current().transactions)
      ensures Current().merkleRoot == old(Current().merkleRoot)
      ensures old(Current().isSealed) ==> Current().orbitalHash == old(Current().orbitalHash)
    {
      SealLast(orbits, hash, orbits[currentOrbitIndex]);
      assert Chained(orbits, hash);
      assert totalTransactions == Admitted(orbits);
      assert Registry();
    }

    /** The first step of `process_pending_transactions`: a new orbit when
        the current one is full or sealed. The next fill then has the same
        room as before. */
    method OpenIfNeeded(now: Timestamp) returns (moved: bool)
      requires Valid()
      modifies this`orbits, this`currentOrbitIndex, this`totalOrbits
      ensures Valid() && !Current().isSealed && Room() == old(Room())
      ensures moved == old(Current().IsFull() || Current().isSealed)
      ensures |orbits| == |old(orbits)| + (if moved then 1 else 0) && orbits[..|old(orbits)|] == old(orbits)
      ensures moved ==> fresh(Current()) && Current().timestamp == now
      ensures !moved ==> orbits == old(orbits)
      ensures Current().transactions == if moved then [] else old(Current().transactions)
      ensures CurrentPool() == old(CurrentPool())
      ensures forall k :: 0 <= k < |validators| ==> validators[k].validatedCount == old(validators[k].validatedCount)
    {
      var current := orbits[currentOrbitIndex];
      moved := current.IsFull() || current.isSealed;
      if moved {
        CreateNewOrbit(now);
      }
    }

    /** The rest of `process_pending_transactions`, into the open current
        orbit: the walk over the queue, the seal when the orbit fills, the
        growth of the transaction counter and the removal of the admitted
        transactions from the queue. */
    method AdmitIntoCurrent(ghost room: nat, ghost pool: Pool) returns (processed: seq<Transaction>)
      requires Valid() && !Current().isSealed && room == Room() && pool == CurrentPool()
      modifies orbits[|orbits| - 1], this`totalTransactions, this`pending, validators`validatedCount
      ensures Valid()
      ensures var w := Drain(old(pending), room, pool);
        processed == w.admitted &&
        Current().transactions == old(Current().transactions) + processed &&
        (Current().isSealed <==> |processed| == room) &&
        totalTransactions == old(totalTransactions) + |processed| &&
        pending == w.skipped + w.unvisited &&
        forall k :: 0 <= k < |validators| ==>
          validators[k].validatedCount ==
          old(validators[k].validatedCount) +
            (if validators[k].isActive then CountWellFormed(Visited(old(pending), w)) else 0)
    {
      processed := FillLast(orbits, hash, validators, pending, room, pool,
                            currentOrbitIndex, totalOrbits, totalTransactions);
      var rest := Dequeue(pending, processed, room, pool);
      Record(|processed|, rest);
    }

    /** Books `admitted` new transactions and replaces the queue by `rest`. */
    method Record(admitted: nat, rest: seq<Transaction>)
      requires Consistent(orbits, hash, currentOrbitIndex, totalOrbits, totalTransactions + admitted)
      requires Registry() && (Current().IsFull() ==> Current().isSealed)
      modifies this`totalTransactions, this`pending
      ensures Valid() && totalTransactions == old(totalTransactions) + admitted && pending == rest
    {
      totalTransactions, pending := totalTransactions + admitted, rest;
    }

    /** `process_pending_transactions`: nothing happens with an empty queue;
        otherwise it is ProcessQueue. */
    method ProcessPendingTransactions(now: Timestamp)
      requires Valid()
      modifies this`orbits, this`currentOrbitIndex, this`totalOrbits, this`totalTransactions, this`pending
      modifies orbits[|orbits| - 1], validators`validatedCount
      ensures Valid()
      ensures old(Current().isSealed) ==> unchanged(old(Current()))
      ensures old(pending) == [] ==>
        orbits == old(orbits) && pending == [] && unchanged(orbits[|orbits| - 1]) &&
        currentOrbitIndex == old(currentOrbitIndex) && totalOrbits == old(totalOrbits) &&
        totalTransactions == old(totalTransactions) &&
        forall k :: 0 <= k < |validators| ==> validators[k].validatedCount == old(validators[k].validatedCount)
      ensures old(pending) != [] ==>
        var moved := old(Current().IsFull() || Current().isSealed);
        var w := Drain(old(pending), old(Room()), old(CurrentPool()));
        |orbits| == |old(orbits)| + (if moved then 1 else 0) && orbits[..|old(orbits)|] == old(orbits) &&
        (moved ==> fresh(Current()) && Current().timestamp == now) &&
        Current().transactions == (if moved then [] else old(Current().transactions)) + w.admitted &&
        (Current().isSealed <==> |w.admitted| == old(Room())) &&
        pending == w.skipped + w.unvisited &&
        totalTransactions == old(totalTransactions) + |w.admitted| &&
        forall k :: 0 <= k < |validators| ==>
          validators[k].validatedCount ==
          old(validators[k].validatedCount) +
            (if validators[k].isActive then CountWellFormed(Visited(old(pending), w)) else 0)
    {
      if pending != [] {
        ProcessQueue(now);
      }
    }

    /** `process_pending_transactions` on a non-empty queue: a new orbit is
        opened if the current one is full or sealed, the queue is walked in
        order through the consensus gate into the current orbit until it
        fills (when it is sealed), and exactly the admitted transactions
        leave the queue, the rest keeping their order. */
    method ProcessQueue(now: Timestamp)
      requires Valid() && pending != []
      modifies this`orbits, this`currentOrbitIndex, this`totalOrbits, this`totalTransactions, this`pending
      modifies orbits[|orbits| - 1], validators`validatedCount
      ensures Valid()
      ensures old(Current().isSealed) ==> unchanged(old(Current()))
      ensures var moved := old(Current().IsFull() || Current().isSealed);
        var w := Drain(old(pending), old(Room()), old(CurrentPool()));
        |orbits| == |old(orbits)| + (if moved then 1 else 0) && orbits[..|old(orbits)|] == old(orbits) &&
        (moved ==> fresh(Current()) && Current().timestamp == now) &&
        Current().transactions == (if moved then [] else old(Current().transactions)) + w.admitted &&
        (Current().isSealed <==> |w.admitted| == old(Room())) &&
        pending == w.skipped + w.unvisited &&
        totalTransactions == old(totalTransactions) + |w.admitted| &&
        forall k :: 0 <= k < |validators| ==>
          validators[k].validatedCount ==
          old(validators[k].validatedCount) +
            (if validators[k].isActive then CountWellFormed(Visited(old(pending), w)) else 0)
    {
      ghost var room, pool, prior := Room(), CurrentPool(), Current();
      var moved := OpenIfNeeded(now);
      assert moved ==> prior != Current();
      var processed := AdmitIntoCurrent(room, pool);
    }

    /** `get_network_status`: the counts the source reports (uptime and the
        threshold string left out). */
    function GetNetworkStatus(): (s: NetworkStatus)
      reads this`orbits, this`validators, this`pending, this`currentOrbitIndex, this`totalTransactions, validators`isActive
      ensures s.totalOrbits == |orbits| && s.pendingTransactions == |pending| && s.totalValidators == |validators|
      ensures s.activeValidators <= s.totalValidators && s.activeValidators == |TrueAt(ActiveFlags(validators))|
    {
      CountTrueCounts(ActiveFlags(validators));
      NetworkStatus(name, |orbits|, totalTransactions, |pending|, CountTrue(ActiveFlags(validators)),
                    |validators|, currentOrbitIndex)
    }
  }

  /** In every reachable state the status shows the chain's own counts: the
      current orbit is the last one and the transaction total is what the
      orbits hold. */
  lemma StatusOfValid(net: OrbitChainNetwork)
    requires net.Valid()
    ensures var s := net.GetNetworkStatus();
      s.totalOrbits >= 1 && s.currentOrbit == s.totalOrbits - 1 && s.totalTransactions == Admitted(net.orbits)
  {
  }

  /** The chain invariants read orbit by orbit in every reachable state:
      the index is the last position, orbit `i` is numbered `i` and holds at
      most its capacity, every orbit but the last is sealed, orbit 0 is the
      genesis orbit, and every sealed orbit after it carries its
      predecessor's orbital hash. */
  lemma ValidChain(net: OrbitChainNetwork)
    requires net.Valid()
    ensures net.currentOrbitIndex == |net.orbits| - 1 && net.totalOrbits == |net.orbits|
    ensures net.orbits[0].isSealed && net.orbits[0].previousHash == "" && |net.orbits[0].transactions| == 1
    ensures forall i :: 0 <= i < |net.orbits| ==>
              net.orbits[i].orbitNumber == i && |net.orbits[i].transactions| <= net.orbits[i].maxTransactions
    ensures forall i :: 0 <= i < |net.orbits| - 1 ==> net.orbits[i].isSealed
    ensures forall i :: 1 <= i < |net.orbits| && net.orbits[i].isSealed ==>
              net.orbits[i].previousHash == net.orbits[i - 1].orbitalHash
  {
    var os := net.orbits;
    forall i | 0 <= i < |os|
      ensures os[i].orbitNumber == i && |os[i].transactions| <= os[i].maxTransactions
      ensures i < |os| - 1 ==> os[i].isSealed
      ensures i >= 1 && os[i].isSealed ==> os[i].previousHash == os[i - 1].orbitalHash
    {
      ChainedAt(os, net.hash, i);
    }
    ChainedAt(os, net.hash, 0);
  }

  /** A new network without validators, one submitted transaction, one
      processing step: the genesis orbit is sealed, so a second orbit is
      opened and the transaction passes the empty gate into it. */
  method SingleTransactionWithoutValidators(h: Hasher, genesisStamp: Timestamp, clock: Timestamp, draw: int,
                                            created: Timestamp, now: Timestamp, tx: Transaction)
    returns (net: OrbitChainNetwork)
    requires 0 <= draw <= 9999
    ensures net.Valid() && |net.orbits| == 2 && net.currentOrbitIndex == 1
    ensures net.orbits[1].transactions == [tx] && !net.orbits[1].isSealed
    ensures net.pending == [] && net.totalTransactions == 2
  {
    net := new OrbitChainNetwork("OrbitChain-MainNet", h, genesisStamp, clock, draw, created);
    net.SubmitTransaction(tx);
    net.ProcessPendingTransactions(now);
  }

  /** One active validator and a transaction with an empty sender: the
      gate rejects it, the new orbit stays empty and the transaction stays
      queued for the next step. */
  method MalformedTransactionStaysPending(h: Hasher, genesisStamp: Timestamp, clock: Timestamp, draw: int,
                                          created: Timestamp, now: Timestamp, tx: Transaction)
    returns (net: OrbitChainNetwork)
    requires 0 <= draw <= 9999 && tx.sender == ""
    ensures net.Valid() && |net.orbits| == 2 && net.orbits[1].transactions == []
    ensures net.pending == [tx] && net.totalTransactions == 1
  {
    net := new OrbitChainNetwork("OrbitChain-MainNet", h, genesisStamp, clock, draw, created);
    var v := new Validator("validator-1", 100.0);
    net.AddValidator(v);
    net.SubmitTransaction(tx);
    net.ProcessPendingTransactions(now);
  }
}
