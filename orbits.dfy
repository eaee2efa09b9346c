/** Orbits: capacity-bounded, append-only batches of transactions with a
    Merkle commitment and a one-way open-to-sealed transition. */
module Orbits {
  import opened Digests
  import opened Transactions
  import opened Merkle
  import opened Sectors
  import opened Outcomes

  /** Capacity of every orbit after the genesis orbit. */
  const DefaultCapacity: nat := 8

  /** The Merkle leaves: each transaction's content tag, in insertion order. */
  function Leaves(txs: seq<Transaction>): (tags: seq<string>)
    ensures |tags| == |txs| && forall k :: 0 <= k < |txs| ==> tags[k] == txs[k].signature
  {
    if txs == [] then [] else Leaves(txs[..|txs| - 1]) + [txs[|txs| - 1].signature]
  }

  /** Python's `a % b`: the remainder has the sign of the divisor. */
  function FloorMod(a: int, b: int): (r: int)
    requires b != 0
    ensures b > 0 ==> r == a % b && 0 <= r < b
    ensures b < 0 ==> b < r <= 0 && (r == a % b || r == a % b + b)
  {
    if b > 0 || a % b == 0 then a % b else a % b + b
  }

  /** `{i: [] for i in range(n)}`: one empty sector per index below `n`. */
  function EmptySectors(n: int): (m: map<int, seq<Transaction>>)
    ensures forall i :: i in m <==> 0 <= i < n
    ensures forall i :: i in m ==> m[i] == []
    decreases n
  {
    if n <= 0 then map[] else EmptySectors(n - 1)[n - 1 := []]
  }

  class Orbit {
    const orbitNumber: int
    const maxTransactions: int
    const timestamp: Timestamp
    const hash: Hasher
    var transactions: seq<Transaction>
    var isSealed: bool
    var orbitalHash: string
    var previousHash: string
    var merkleRoot: string

    /** The orbital hash the current fields commit to. */
    function SealDigest(): Digest
      reads this`transactions, this`merkleRoot, this`previousHash
    {
      hash(SealRecord(orbitNumber, |transactions|, merkleRoot, previousHash, timestamp))
    }

    /** The orbit's invariant: within capacity, the Merkle root matches the
        list (while the list is empty it is "" as built, or EmptyRoot once
        recomputed), the two hashes are empty
        while open, and once sealed the orbital hash matches the contents. */
    ghost predicate Valid()
      reads this`transactions, this`merkleRoot, this`isSealed, this`orbitalHash, this`previousHash
    {
      (|transactions| == 0 || |transactions| <= maxTransactions) &&
      (|transactions| == 0 ==> merkleRoot == "" || merkleRoot == EmptyRoot) &&
      // the trigger keeps the root folded until some proof computes leaves
      (forall t {:trigger Leaves(t)} :: t == transactions && |t| > 0 ==> merkleRoot == MerkleRoot(hash, Leaves(t))) &&
      (!isSealed ==> orbitalHash == "" && previousHash == "") &&
      (isSealed ==> orbitalHash == SealDigest())
    }

    constructor (orbitNumber: int, maxTransactions: int, timestamp: Timestamp, hash: Hasher)
      ensures Valid()
      ensures this.orbitNumber == orbitNumber && this.maxTransactions == maxTransactions
      ensures this.timestamp == timestamp && this.hash == hash
      ensures transactions == [] && !isSealed
      ensures orbitalHash == "" && previousHash == "" && merkleRoot == ""
    {
      this.orbitNumber := orbitNumber;
      this.maxTransactions := maxTransactions;
      this.timestamp := timestamp;
      this.hash := hash;
      transactions := [];
      isSealed := false;
      orbitalHash := "";
      previousHash := "";
      merkleRoot := "";
    }

    /** Full means the list has reached the capacity. */
    predicate IsFull()
      reads this`transactions
    {
      |transactions| >= maxTransactions
    }

    /** Under the invariant an orbit with a non-negative capacity is full
        exactly when it holds that many transactions. */
    lemma FullMeansAtCapacity()
      requires Valid() && maxTransactions >= 0
      ensures IsFull() <==> |transactions| == maxTransactions
    {
    }

    /** Appends `tx` unless the orbit is sealed or full; on success the root
        is recomputed over the new list. */
    method AddTransaction(tx: Transaction) returns (ok: bool)
      requires Valid()
      modifies this`transactions, this`merkleRoot
      ensures Valid()
      ensures ok <==> !isSealed && |old(transactions)| < maxTransactions
      ensures ok ==> transactions == old(transactions) + [tx]
      ensures ok ==> merkleRoot == MerkleRoot(hash, Leaves(transactions))
      ensures !ok ==> transactions == old(transactions) && merkleRoot == old(merkleRoot)
    {
      if isSealed {
        return false;
      }
      if |transactions| >= maxTransactions {
        return false;
      }
      transactions := transactions + [tx];
      UpdateMerkleRoot();
      return true;
    }

    /** Recomputes the root over the current list (EmptyRoot for none). The
        invariant survives unless the orbit is sealed and empty, where a
        changed root no longer matches the orbital hash. */
    method UpdateMerkleRoot()
      modifies this`merkleRoot
      ensures merkleRoot == MerkleRoot(hash, Leaves(transactions))
      ensures old(Valid()) && (!isSealed || transactions != []) ==> Valid()
    {
      if transactions == [] {
        merkleRoot := EmptyRoot;
        return;
      }
      merkleRoot := ComputeMerkleRoot(hash, Leaves(transactions));
    }

    /** Seals the orbit with the given predecessor hash. There is no guard
        against an orbit that is already sealed: it is sealed again, and with
        the same predecessor hash that yields the same orbital hash. */
    method SealOrbit(p: string)
      requires Valid()
      modifies this`previousHash, this`isSealed, this`orbitalHash
      ensures Valid() && isSealed && previousHash == p
      ensures orbitalHash == hash(SealRecord(orbitNumber, |transactions|, merkleRoot, p, timestamp))
      ensures old(isSealed) && old(previousHash) == p ==> orbitalHash == old(orbitalHash)
    {
      previousHash := p;
      isSealed := true;
      orbitalHash := hash(SealRecord(orbitNumber, |transactions|, merkleRoot, previousHash, timestamp));
    }

    /** Round-robin split of the transactions over `n` sectors. With `n`
        positive every sector is present and sector `i` is Sector(.., n, i);
        otherwise the source's loop raises on the first transaction. */
    method GetSectors(n: int) returns (r: Result<map<int, seq<Transaction>>>)
      ensures n > 0 ==> r.Ok? && forall i :: i in r.value <==> 0 <= i < n
      ensures n > 0 ==> forall i :: 0 <= i < n ==> r.value[i] == Sector(transactions, n, i)
      ensures n <= 0 ==> r == if transactions == [] then Ok(map[])
                              else if n == 0 then Err(ZeroDivisionError) else Err(KeyError)
    {
      var sectors := EmptySectors(n);
      var k := 0;
      while k < |transactions|
        invariant 0 <= k <= |transactions|
        invariant n <= 0 ==> k == 0 && sectors == map[]
        invariant forall i :: i in sectors <==> 0 <= i < n
        invariant n > 0 ==> forall i :: 0 <= i < n ==> sectors[i] == Sector(transactions[..k], n, i)
      {
        if n == 0 {
          return Err(ZeroDivisionError);
        }
        var sector := FloorMod(k, n);
        if sector !in sectors {
          return Err(KeyError);
        }
        assert transactions[..k + 1][..k] == transactions[..k];
        sectors := sectors[sector := sectors[sector] + [transactions[k]]];
        k := k + 1;
      }
      assert transactions[..k] == transactions;
      return Ok(sectors);
    }
  }

  /** Once sealed, an admission attempt fails and changes nothing. */
  method AddAfterSeal(o: Orbit, tx: Transaction, p: string)
    requires o.Valid()
    modifies o
    ensures o.isSealed && o.previousHash == p
    ensures o.transactions == old(o.transactions) && o.merkleRoot == old(o.merkleRoot)
  {
    o.SealOrbit(p);
    var ok := o.AddTransaction(tx);
    assert !ok;
  }
}
