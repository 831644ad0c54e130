/** The hash-linked, proof-of-work ledger: blocks, the chain that holds them,
    nonce search, proof checking, guarded append and mining.

    The digest function is a parameter. A `Block` value stands for the
    attribute dictionary of the Python object at the moment it is hashed:
    `nonce` and `hash` are `None` while the object lacks that attribute, so
    the genesis block is hashed with neither, a mined block with a nonce but
    no hash, and a block that already carries a hash would be hashed with it. */
module Ledger {

  import opened Wrappers
  import opened PyStrings

  /** A wall-clock reading; no ordering is assumed of it. */
  type Timestamp = real

  datatype Block = Block(
    index: int,
    transactions: string,
    timestamp: Timestamp,
    previousHash: string,
    nonce: Option<nat>,
    hash: Option<string>)

  /** A deterministic digest of a block's attributes (the hexadecimal SHA-256
      of their key-sorted JSON in `Blockchain.py`). */
  type Hasher = Block -> string

  datatype Blockchain = Blockchain(chain: seq<Block>, difficulty: int)

  const DefaultDifficulty: int := 2

  /** Sentinel `previous_hash` of the genesis block. */
  const GenesisPreviousHash: string := "0"

  /** A freshly constructed block: no nonce and no hash attribute yet. */
  function NewBlock(index: int, transactions: string, timestamp: Timestamp, previousHash: string): (b: Block)
    ensures b.nonce.None? && b.hash.None?
    ensures b.index == index && b.transactions == transactions
    ensures b.timestamp == timestamp && b.previousHash == previousHash
  {
    Block(index, transactions, timestamp, previousHash, None, None)
  }

  /** `"0" * d`; Python yields the empty string when `d <= 0`. */
  function Zeros(d: int): (z: string)
    ensures |z| == if d <= 0 then 0 else d
    ensures forall i :: 0 <= i < |z| ==> z[i] == '0'
    decreases d
  {
    if d <= 0 then "" else "0" + Zeros(d - 1)
  }

  /** The difficulty predicate: `s.startswith("0" * d)`. */
  predicate MeetsDifficulty(s: string, d: int)
  {
    StartsWith(s, Zeros(d))
  }

  /** The difficulty predicate is exactly "the first `d` characters exist and are '0'". */
  lemma MeetsDifficultyChars(s: string, d: int)
    ensures MeetsDifficulty(s, d) <==> d <= |s| && forall i :: 0 <= i < d ==> s[i] == '0'
  {
  }

  /** The block with its `hash` attribute removed: what was hashed before it was committed. */
  function Unsealed(b: Block): Block
  {
    b.(hash := None)
  }

  /** The stored hash is the digest of the block's other attributes. */
  predicate Sealed(h: Hasher, b: Block)
  {
    b.hash == Some(h(Unsealed(b)))
  }

  /** `is_valid_proof`: the proof has the zero prefix and is the block's digest. */
  function IsValidProof(h: Hasher, difficulty: int, b: Block, proof: string): (r: bool)
    ensures r <==> && difficulty <= |proof|
                   && (forall i :: 0 <= i < difficulty ==> proof[i] == '0')
                   && proof == h(b)
  {
    MeetsDifficultyChars(proof, difficulty);
    MeetsDifficulty(proof, difficulty) && proof == h(b)
  }

  /** Nonce `n` solves the proof-of-work puzzle for `b`. */
  ghost predicate Solves(h: Hasher, difficulty: int, b: Block, n: nat)
  {
    MeetsDifficulty(h(b.(nonce := Some(n))), difficulty)
  }

  /** Some nonce solves the puzzle, so the nonce search terminates. */
  ghost predicate Minable(h: Hasher, difficulty: int, b: Block)
  {
    exists n: nat :: Solves(h, difficulty, b, n)
  }

  /** `proof_of_work`: tries nonces 0, 1, 2, ... and returns the block with the
      first nonce whose digest has the zero prefix, together with that digest. */
  method ProofOfWork(h: Hasher, difficulty: int, b: Block) returns (mined: Block, proof: string)
    requires Minable(h, difficulty, b)
    ensures mined.nonce.Some? && mined == b.(nonce := mined.nonce)
    ensures proof == h(mined) && MeetsDifficulty(proof, difficulty)
    ensures forall k: nat :: k < mined.nonce.value ==> !Solves(h, difficulty, b, k)
  {
    ghost var w: nat :| Solves(h, difficulty, b, w);
    var target := Zeros(difficulty);
    var n: nat := 0;
    mined := b.(nonce := Some(n));
    proof := h(mined);
    while !StartsWith(proof, target)
      invariant mined == b.(nonce := Some(n)) && proof == h(mined)
      invariant forall k: nat :: k < n ==> !Solves(h, difficulty, b, k)
      invariant n <= w
      decreases w - n
    {
      n := n + 1;
      mined := b.(nonce := Some(n));
      proof := h(mined);
    }
  }

  /** `last_block` */
  function LastBlock(L: Blockchain): (b: Block)
    requires |L.chain| > 0
    ensures L.chain[|L.chain| - 1..] == [b]
    ensures Contiguous(L.chain) ==> b.index == |L.chain| - 1
  {
    L.chain[|L.chain| - 1]
  }

  /** `add_block`: rejects a block that does not link to the tail or whose proof
      is invalid, leaving the ledger unchanged; otherwise stores `proof` as the
      block's hash and appends it. The tail must carry a hash attribute. */
  function AddBlock(h: Hasher, L: Blockchain, b: Block, proof: string): (r: (bool, Blockchain))
    requires |L.chain| > 0 && LastBlock(L).hash.Some?
    ensures r.0 <==> b.previousHash == LastBlock(L).hash.value
                     && MeetsDifficulty(proof, L.difficulty) && proof == h(b)
    ensures !r.0 ==> r.1 == L
    ensures r.0 ==> r.1.difficulty == L.difficulty
                    && |r.1.chain| == |L.chain| + 1
                    && r.1.chain[..|L.chain|] == L.chain
                    && LastBlock(r.1) == b.(hash := Some(proof))
  {
    var previousHash := LastBlock(L).hash.value;
    if previousHash != b.previousHash then (false, L)
    else if !IsValidProof(h, L.difficulty, b, proof) then (false, L)
    else
      var committed := b.(hash := Some(proof));
      (true, L.(chain := L.chain + [committed]))
  }

  // ---------------------------------------------------------------------------
  // Ledger invariants

  /** Shape of the genesis block: index 0, empty payload, sentinel link, no
      nonce, hashed with no nonce and no hash attribute. */
  predicate GenesisShaped(h: Hasher, b: Block)
  {
    && b.index == 0
    && b.transactions == ""
    && b.previousHash == GenesisPreviousHash
    && b.nonce.None?
    && Sealed(h, b)
  }

  /** Every block records the hash of the block before it. */
  predicate Linked(chain: seq<Block>)
  {
    forall i :: 1 <= i < |chain| ==> chain[i - 1].hash == Some(chain[i].previousHash)
  }

  /** Every block after genesis is sealed with a hash that has the zero prefix. */
  predicate Proven(h: Hasher, difficulty: int, chain: seq<Block>)
  {
    forall i :: 1 <= i < |chain| ==> Sealed(h, chain[i]) && MeetsDifficulty(chain[i].hash.value, difficulty)
  }

  /** Block `i` has index `i`. */
  predicate Contiguous(chain: seq<Block>)
  {
    forall i :: 0 <= i < |chain| ==> chain[i].index == i
  }

  predicate ValidChain(h: Hasher, difficulty: int, chain: seq<Block>)
  {
    && |chain| > 0
    && GenesisShaped(h, chain[0])
    && Linked(chain)
    && Proven(h, difficulty, chain)
  }

  predicate Valid(h: Hasher, L: Blockchain)
  {
    ValidChain(h, L.difficulty, L.chain)
  }

  /** In a valid chain every block is sealed, genesis included. */
  lemma ValidAllSealed(h: Hasher, difficulty: int, chain: seq<Block>, i: int)
    requires ValidChain(h, difficulty, chain)
    requires 0 <= i < |chain|
    ensures Sealed(h, chain[i])
  {
  }

  /** `Blockchain(difficulty)`: a chain holding only the genesis block, whose
      hash is the digest of its fields with no nonce. */
  function Init(h: Hasher, now: Timestamp, difficulty: int): (L: Blockchain)
    ensures |L.chain| == 1 && L.difficulty == difficulty
    ensures L.chain[0].index == 0 && L.chain[0].transactions == ""
    ensures L.chain[0].previousHash == "0" && L.chain[0].timestamp == now
    ensures L.chain[0].nonce.None?
    ensures L.chain[0].hash == Some(h(NewBlock(0, "", now, "0")))
    ensures Valid(h, L) && Contiguous(L.chain)
  {
    var b := NewBlock(0, "", now, GenesisPreviousHash);
    Blockchain([b.(hash := Some(h(b)))], difficulty)
  }

  /** The ledger a controller starts with: default difficulty 2. */
  function InitDefault(h: Hasher, now: Timestamp): (L: Blockchain)
    ensures L.difficulty == 2 && |L.chain| == 1 && Valid(h, L)
  {
    Init(h, now, DefaultDifficulty)
  }

  /** A successful append of a block with no hash attribute keeps the ledger valid. */
  lemma AddBlockPreservesValid(h: Hasher, L: Blockchain, b: Block, proof: string)
    requires Valid(h, L)
    requires b.hash.None?
    ensures Valid(h, AddBlock(h, L, b, proof).1)
  {
  }

  /** A successful append of the block numbered one past the tail keeps indices contiguous. */
  lemma AddBlockPreservesContiguous(h: Hasher, L: Blockchain, b: Block, proof: string)
    requires |L.chain| > 0 && LastBlock(L).hash.Some?
    requires Contiguous(L.chain)
    requires b.index == LastBlock(L).index + 1
    ensures Contiguous(AddBlock(h, L, b, proof).1.chain)
  {
  }

  /** The block `mine` builds: numbered after the tail and linked to its hash. */
  function Candidate(L: Blockchain, transactions: string, now: Timestamp): (b: Block)
    requires |L.chain| > 0 && LastBlock(L).hash.Some?
    ensures b.hash.None? && b.nonce.None?
    ensures b.index == LastBlock(L).index + 1 && b.previousHash == LastBlock(L).hash.value
    ensures b.transactions == transactions && b.timestamp == now
  {
    var last := LastBlock(L);
    NewBlock(last.index + 1, transactions, now, last.hash.value)
  }

  /** `mine`: builds the candidate, searches its nonce, calls `add_block` and
      reports True regardless. `appended` is what `add_block` returned; in
      this sequential model it is always true. */
  method Mine(h: Hasher, L: Blockchain, transactions: string, now: Timestamp)
    returns (ok: bool, appended: bool, L': Blockchain)
    requires |L.chain| > 0 && LastBlock(L).hash.Some?
    requires Minable(h, L.difficulty, Candidate(L, transactions, now))
    ensures ok && appended
    ensures L'.difficulty == L.difficulty
    ensures |L'.chain| == |L.chain| + 1 && L'.chain[..|L.chain|] == L.chain
    ensures var b := LastBlock(L');
            && b.index == LastBlock(L).index + 1
            && b.transactions == transactions
            && b.timestamp == now
            && b.previousHash == LastBlock(L).hash.value
            && b.nonce.Some?
            && Sealed(h, b)
            && MeetsDifficulty(b.hash.value, L.difficulty)
            && forall k: nat :: k < b.nonce.value ==> !Solves(h, L.difficulty, Candidate(L, transactions, now), k)
    ensures Valid(h, L) ==> Valid(h, L')
    ensures Contiguous(L.chain) ==> Contiguous(L'.chain)
  {
    var candidate := Candidate(L, transactions, now);
    var mined, proof := ProofOfWork(h, L.difficulty, candidate);
    assert Unsealed(mined.(hash := Some(proof))) == mined;
    var r := AddBlock(h, L, mined, proof);
    appended, L' := r.0, r.1;
    if Valid(h, L) {
      AddBlockPreservesValid(h, L, mined, proof);
    }
    if Contiguous(L.chain) {
      AddBlockPreservesContiguous(h, L, mined, proof);
    }
    ok := true;
  }

  /** `L'` is `L` followed by one block per payload of `flows`, in order,
      each stamped with the matching element of `times`. */
  predicate ExtendedBy(L': Blockchain, L: Blockchain, flows: seq<string>, times: seq<Timestamp>)
  {
    && |times| == |flows|
    && L'.difficulty == L.difficulty
    && |L'.chain| == |L.chain| + |flows|
    && L'.chain[..|L.chain|] == L.chain
    && forall k :: 0 <= k < |flows| ==>
         L'.chain[|L.chain| + k].transactions == flows[k] && L'.chain[|L.chain| + k].timestamp == times[k]
  }

  /** Appending a block carrying `flow` at `now` extends the payload and time lists by one. */
  lemma ExtendedByStep(L: Blockchain, prev: Blockchain, next: Blockchain, flows: seq<string>, times: seq<Timestamp>,
                       flow: string, now: Timestamp)
    requires ExtendedBy(prev, L, flows, times)
    requires next.difficulty == prev.difficulty
    requires |next.chain| == |prev.chain| + 1 && next.chain[..|prev.chain|] == prev.chain
    requires next.chain[|prev.chain|].transactions == flow && next.chain[|prev.chain|].timestamp == now
    ensures ExtendedBy(next, L, flows + [flow], times + [now])
  {
  }

  /** Mines one payload per element of `flows`, at the matching `times`, when
      every candidate has a solving nonce. Each call appends exactly one block,
      so from genesis, after N mines the tail's index is N. */
  method MineAll(h: Hasher, L: Blockchain, flows: seq<string>, times: seq<Timestamp>)
    returns (L': Blockchain)
    requires Valid(h, L) && Contiguous(L.chain)
    requires |times| == |flows|
    requires forall b: Block :: Minable(h, L.difficulty, b)
    ensures Valid(h, L') && Contiguous(L'.chain)
    ensures L'.difficulty == L.difficulty
    ensures |L'.chain| == |L.chain| + |flows| && L'.chain[..|L.chain|] == L.chain
    ensures LastBlock(L').index == LastBlock(L).index + |flows|
    ensures forall k :: 0 <= k < |flows| ==>
              L'.chain[|L.chain| + k].transactions == flows[k] && L'.chain[|L.chain| + k].timestamp == times[k]
  {
    L' := L;
    var i := 0;
    assert flows[..0] == [] && times[..0] == [];
    while i < |flows|
      invariant 0 <= i <= |flows|
      invariant Valid(h, L') && Contiguous(L'.chain)
      invariant ExtendedBy(L', L, flows[..i], times[..i])
    {
      ValidAllSealed(h, L'.difficulty, L'.chain, |L'.chain| - 1);
      var prev := L';
      var ok, appended;
      ok, appended, L' := Mine(h, prev, flows[i], times[i]);
      ExtendedByStep(L, prev, L', flows[..i], times[..i], flows[i], times[i]);
      assert flows[..i] + [flows[i]] == flows[..i + 1];
      assert times[..i] + [times[i]] == times[..i + 1];
      i := i + 1;
    }
    assert flows[..i] == flows && times[..i] == times;
  }

  // ---------------------------------------------------------------------------
  // What the hash chaining buys

  /** The digest separates the corresponding blocks of two chains: wherever
      their unsealed blocks differ, so do their digests. */
  ghost predicate NoCollisions(h: Hasher, c1: seq<Block>, c2: seq<Block>)
  {
    forall i :: 0 <= i < |c1| && i < |c2| && h(Unsealed(c1[i])) == h(Unsealed(c2[i])) ==>
      Unsealed(c1[i]) == Unsealed(c2[i])
  }

  /** A candidate built against a tail that has since been extended is
      rejected, and the ledger stays as it is, as long as the appended block's
      digest differs from the old tail's. */
  lemma StaleCandidateRejected(h: Hasher, L: Blockchain, b: Block, proof: string, c: Block, q: string)
    requires Valid(h, L)
    requires h(b) != h(Unsealed(LastBlock(L)))
    requires AddBlock(h, L, b, proof).0
    requires c.previousHash == LastBlock(L).hash.value
    ensures var L1 := AddBlock(h, L, b, proof).1;
            !AddBlock(h, L1, c, q).0 && AddBlock(h, L1, c, q).1 == L1
  {
  }

  /** When the digest separates their blocks, the tail's hash commits to the
      whole chain: two valid chains of equal length with the same tail hash
      are equal, so no earlier block can be altered without changing it. */
  lemma {:induction false} TailHashCommits(h: Hasher, d1: int, c1: seq<Block>, d2: int, c2: seq<Block>)
    requires NoCollisions(h, c1, c2)
    requires ValidChain(h, d1, c1) && ValidChain(h, d2, c2)
    requires |c1| == |c2|
    requires c1[|c1| - 1].hash == c2[|c2| - 1].hash
    ensures c1 == c2
  {
    PrefixCommits(h, d1, c1, d2, c2, |c1| - 1);
    assert c1[..|c1|] == c1 && c2[..|c2|] == c2;
  }

  lemma {:induction false} PrefixCommits(h: Hasher, d1: int, c1: seq<Block>, d2: int, c2: seq<Block>, k: nat)
    requires NoCollisions(h, c1, c2)
    requires ValidChain(h, d1, c1) && ValidChain(h, d2, c2)
    requires k < |c1| && k < |c2|
    requires c1[k].hash == c2[k].hash
    ensures c1[..k + 1] == c2[..k + 1]
    decreases k
  {
    ValidAllSealed(h, d1, c1, k);
    ValidAllSealed(h, d2, c2, k);
    assert Unsealed(c1[k]) == Unsealed(c2[k]);
    assert c1[k] == c2[k];
    if k > 0 {
      assert c1[k - 1].hash == Some(c1[k].previousHash);
      assert c2[k - 1].hash == Some(c2[k].previousHash);
      PrefixCommits(h, d1, c1, d2, c2, k - 1);
      assert c1[..k + 1] == c1[..k] + [c1[k]];
      assert c2[..k + 1] == c2[..k] + [c2[k]];
    } else {
      assert c1[..1] == [c1[0]] && c2[..1] == [c2[0]];
    }
  }
}
