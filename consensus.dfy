/** The consensus gate: a vote of the active validators against a 67% threshold. */
module Consensus {
  import opened Transactions
  import opened Outcomes

  /** How many of the flags are set (the active validators among the registered). */
  function CountTrue(flags: seq<bool>): (c: nat)
    ensures c <= |flags|
  {
    if flags == [] then 0 else CountTrue(flags[..|flags| - 1]) + (if flags[|flags| - 1] then 1 else 0)
  }

  /** The positions of the set flags. */
  function TrueAt(flags: seq<bool>): set<int>
  {
    set k | 0 <= k < |flags| && flags[k]
  }

  /** CountTrue counts the set flags. */
  lemma {:induction false} CountTrueCounts(flags: seq<bool>)
    ensures CountTrue(flags) == |TrueAt(flags)|
    decreases |flags|
  {
    if flags != [] {
      var n := |flags| - 1;
      var p := flags[..n];
      CountTrueCounts(p);
      assert TrueAt(flags) == TrueAt(p) + (if flags[n] then {n} else {});
      assert n !in TrueAt(p);
    }
  }

  /** What the gate sees of the validator pool. */
  datatype Pool = Pool(registered: nat, active: nat)

  /** The threshold `approvals / active >= 0.67`, stated in integers. An empty
      registry approves everything; a registry without an active member
      approves nothing (the source divides by zero there). */
  predicate ConsensusReached(registered: nat, active: nat, approvals: nat)
  {
    registered == 0 || (active > 0 && 100 * approvals >= 67 * active)
  }

  /** The gate as the source writes it, with the division by zero surfacing
      as an error. */
  function ConsensusAsWritten(registered: nat, active: nat, approvals: nat): Result<bool>
  {
    if registered == 0 then Ok(true)
    else if active == 0 then Err(ZeroDivisionError)
    else Ok(100 * approvals >= 67 * active)
  }

  /** Validators registered, none active: the source raises. */
  lemma AsWrittenFaultsWithoutActive(registered: nat, approvals: nat)
    requires registered > 0
    ensures ConsensusAsWritten(registered, 0, approvals) == Err(ZeroDivisionError)
  {
  }

  /** Validators registered, none active: the guarded gate rejects. */
  lemma GuardedRejectsWithoutActive(registered: nat, approvals: nat)
    requires registered > 0
    ensures !ConsensusReached(registered, 0, approvals)
  {
  }

  /** Wherever the source does not raise, both agree. */
  lemma GuardedAgreesWithAsWritten(registered: nat, active: nat, approvals: nat)
    requires ConsensusAsWritten(registered, active, approvals).Ok?
    ensures ConsensusAsWritten(registered, active, approvals).value == ConsensusReached(registered, active, approvals)
  {
  }

  /** Every active validator applies the same structural check, so the
      approvals are either all of the active validators or none of them. */
  function Votes(pool: Pool, tx: Transaction): nat
  {
    if WellFormed(tx) then pool.active else 0
  }

  /** The gate's verdict on `tx` for a pool, in plain terms: with no
      validators everything passes (even a malformed transaction);
      otherwise a transaction passes exactly when it is well formed and at
      least one validator is active. */
  predicate Approves(pool: Pool, tx: Transaction)
  {
    pool.registered == 0 || (pool.active > 0 && WellFormed(tx))
  }

  /** The plain verdict is the 67% vote over the approvals the active
      validators give. */
  lemma ApprovesByVote(pool: Pool, tx: Transaction)
    ensures Approves(pool, tx) <==> ConsensusReached(pool.registered, pool.active, Votes(pool, tx))
  {
  }

  /** The verdict depends on the transaction's fields only through the check. */
  lemma SameCheckSameVerdict(pool: Pool, a: Transaction, b: Transaction)
    requires WellFormed(a) == WellFormed(b)
    ensures Approves(pool, a) == Approves(pool, b)
  {
  }
}
