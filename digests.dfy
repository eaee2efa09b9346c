/** The hashing used by the ledger, kept abstract.
    The source hashes with SHA-256, renders the hex digest and keeps a prefix
    of it; the model takes that whole pipeline as one function from the
    hashed arguments to a 16-character digest, supplied by the caller. */
module Digests {

  /** A point in time (`datetime.now()`, `time.time()`), opaque to the ledger. */
  type Timestamp = nat

  /** A 16-character digest, the width every truncated hash has in the source. */
  type Digest = s: string | |s| == 16 witness "0000000000000000"

  /** What gets hashed, one constructor per call site, carrying its arguments. */
  datatype Preimage =
    | Nonce(clock: Timestamp, draw: int)
      // the transaction id: time plus a random draw
    | Content(sender: string, receiver: string, data: string, stamp: Timestamp)
      // the content tag: sender, receiver, payload and creation time
    | Joined(text: string)
      // one Merkle node: the concatenation of two child values
    | SealRecord(orbitNumber: int, count: nat, merkleRoot: string, previousHash: string, stamp: Timestamp)
      // the orbital hash: the sorted-key record built at seal time

  /** The hash pipeline (SHA-256, hex, truncation to 16 characters). */
  type Hasher = Preimage -> Digest

  /** Root of an empty Merkle tree: sixteen '0' characters. */
  const EmptyRoot: Digest := "0000000000000000"

  lemma EmptyRootIsZeros()
    ensures |EmptyRoot| == 16 && forall k :: 0 <= k < |EmptyRoot| ==> EmptyRoot[k] == '0'
  {
  }
}
