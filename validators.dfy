/** Validators: pool members that apply a structural check to transactions. */
module Validators {
  import opened Transactions

  class Validator {
    const name: string
    const stake: real        // informational only, never consulted by the gate
    var reputation: int      // informational only
    var isActive: bool
    var sectorPosition: int  // angle on the ring, assigned at registration
    var validatedCount: nat  // number of checks that passed

    constructor (name: string, stake: real)
      ensures this.name == name && this.stake == stake && reputation == 100
      ensures isActive && sectorPosition == 0 && validatedCount == 0
    {
      this.name := name;
      this.stake := stake;
      reputation := 100;
      isActive := true;
      sectorPosition := 0;
      validatedCount := 0;
    }

    /** Applies the structural check; the counter goes up exactly when it passes. */
    method ValidateTransaction(tx: Transaction) returns (ok: bool)
      modifies this`validatedCount
      ensures ok == WellFormed(tx)
      ensures validatedCount == old(validatedCount) + (if ok then 1 else 0)
    {
      if tx.signature == "" || |tx.signature| < 10 {
        return false;
      }
      if tx.sender == "" || tx.receiver == "" {
        return false;
      }
      validatedCount := validatedCount + 1;
      return true;
    }
  }

  lemma {:induction false} ProductBelow(k: nat, d: nat)
    requires d * (k + 1) <= 360
    ensures k * d < 360 || d == 0
  {
    assert d * (k + 1) == k * d + d;
  }

  /** The angle given to the validator registered at index `k` (the pool had
      `k` members before): `k * (360 // max(1, k + 1))`. Positions are fixed
      at registration and not redistributed as the pool grows. */
  function SectorPosition(k: nat): (pos: int)
    ensures 0 <= pos < 360
  {
    var slots := if 1 > k + 1 then 1 else k + 1;
    var d := 360 / slots;
    assert d * (k + 1) <= 360;
    ProductBelow(k, d);
    k * d
  }
}
