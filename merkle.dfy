/** The pairwise Merkle fold over an orbit's content tags. */
module Merkle {
  import opened Digests

  /** The value that pairs with position `2k` on a level: its right
      neighbour, or itself when it is the odd last entry. */
  function Partner(level: seq<string>, k: nat): string
    requires 2 * k < |level|
  {
    if 2 * k + 1 < |level| then level[2 * k + 1] else level[2 * k]
  }

  /** One level up: adjacent pairs are concatenated and hashed, an odd last
      entry is hashed with itself (it is duplicated, not dropped). */
  function NextLevel(h: Hasher, level: seq<string>): (up: seq<string>)
    ensures |up| == (|level| + 1) / 2
    decreases |level|
  {
    if |level| == 0 then []
    else if |level| == 1 then [h(Joined(level[0] + level[0]))]
    else [h(Joined(level[0] + level[1]))] + NextLevel(h, level[2..])
  }

  /** Entry `k` of the next level is the hash of position `2k` joined with
      its partner. */
  lemma {:induction false} NextLevelEntries(h: Hasher, level: seq<string>)
    ensures forall k :: 0 <= k < |NextLevel(h, level)| ==>
              NextLevel(h, level)[k] == h(Joined(level[2 * k] + Partner(level, k)))
    decreases |level|
  {
    if |level| >= 2 {
      var rest := level[2..];
      NextLevelEntries(h, rest);
      forall k | 1 <= k < |NextLevel(h, level)|
        ensures NextLevel(h, level)[k] == h(Joined(level[2 * k] + Partner(level, k)))
      {
        assert NextLevel(h, level)[k] == NextLevel(h, rest)[k - 1];
        assert level[2 * k] == rest[2 * (k - 1)] && Partner(level, k) == Partner(rest, k - 1);
      }
    }
  }

  /** The root: fold level by level until one value is left; zero leaves
      give EmptyRoot and a single leaf is its own root. */
  function MerkleRoot(h: Hasher, level: seq<string>): string
    decreases |level|
  {
    if |level| == 0 then EmptyRoot
    else if |level| == 1 then level[0]
    else MerkleRoot(h, NextLevel(h, level))
  }

  /** Two or more leaves give a root that the hash produced, hence a digest. */
  lemma {:induction false} RootOfSeveralIsDigest(h: Hasher, level: seq<string>)
    requires |level| >= 2
    ensures |MerkleRoot(h, level)| == 16
    ensures exists p :: MerkleRoot(h, level) == h(p)
    decreases |level|
  {
    var up := NextLevel(h, level);
    NextLevelEntries(h, level);
    if |up| >= 2 {
      RootOfSeveralIsDigest(h, up);
    } else {
      assert MerkleRoot(h, level) == up[0] == h(Joined(level[0] + Partner(level, 0)));
    }
  }

  /** A non-empty list of 16-character leaves has a 16-character root. */
  lemma RootOfDigestsIsDigest(h: Hasher, level: seq<string>)
    requires |level| >= 1
    requires forall k :: 0 <= k < |level| ==> |level[k]| == 16
    ensures |MerkleRoot(h, level)| == 16
  {
    if |level| >= 2 { RootOfSeveralIsDigest(h, level); }
  }

  /** One pass of the source's inner loop: positions 0, 2, 4, ... of a
      level are combined with their partner and hashed, in order. */
  method HashLevel(h: Hasher, hashes: seq<string>) returns (newHashes: seq<string>)
    ensures newHashes == NextLevel(h, hashes)
  {
    newHashes := [];
    var i := 0;
    while i < |hashes|
      invariant i == 2 * |newHashes| && i <= |hashes| + 1
      invariant forall k :: 0 <= k < |newHashes| ==> newHashes[k] == h(Joined(hashes[2 * k] + Partner(hashes, k)))
      decreases |hashes| - i
    {
      var combined;
      if i + 1 < |hashes| {
        combined := hashes[i] + hashes[i + 1];
      } else {
        combined := hashes[i] + hashes[i];
      }
      newHashes := newHashes + [h(Joined(combined))];
      i := i + 2;
    }
    NextLevelEntries(h, hashes);
  }

  /** The fold as the source runs it: a `while` loop that rebuilds the
      list one level at a time until a single value is left. */
  method ComputeMerkleRoot(h: Hasher, leaves: seq<string>) returns (root: string)
    ensures root == MerkleRoot(h, leaves)
  {
    if |leaves| == 0 {
      return EmptyRoot;
    }
    var hashes := leaves;
    while |hashes| > 1
      invariant |hashes| >= 1
      invariant MerkleRoot(h, hashes) == MerkleRoot(h, leaves)
      decreases |hashes|
    {
      hashes := HashLevel(h, hashes);
    }
    root := hashes[0];
  }
}
