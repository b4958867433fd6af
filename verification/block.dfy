/**
 The atomic unit of the ledger: a block, how its content hash is derived, how
 the genesis block and successor blocks are built, and how one block is
 validated against its (optional) predecessor.

 The cryptographic hash is not modelled: every operation takes the hash
 function `h` as a parameter, so everything proved here holds for every
 deterministic hash. The clock is not modelled either: the creation time is
 passed in as `now`.
 */
module Blocks {
  import opened Wrappers

  /** Creation time of a block. It is hashed, but never compared or validated. */
  type Timestamp = int

  /** Exactly the fields a block's hash is computed over. The stored hash is not among them. */
  datatype HashInput = HashInput(index: nat, previousHash: Option<string>, timestamp: Timestamp, data: string)

  /** The content hash: in the system, the upper-case hex SHA-256 digest of the formatted fields. */
  type HashFn = HashInput -> string

  /**
   One ledger record. `hash` is `None` while a block is under construction,
   and may be `None` in a candidate sequence received from elsewhere; such a
   block never passes validation.
   */
  datatype Block = Block(
    index: nat,
    hash: Option<string>,
    previousHash: Option<string>,
    timestamp: Timestamp,
    data: string)

  /** Why a block fails validation. */
  datatype IntegrityViolation = InvalidIndex | InvalidGenesis | InvalidPreviousHash | InvalidHash

  /** The fixed payload of the genesis block. */
  const GenesisData: string := "Neon genesis!"

  function HashInputOf(b: Block): HashInput {
    HashInput(b.index, b.previousHash, b.timestamp, b.data)
  }

  /** Recomputes the content hash of `b` from its four hashed fields. */
  function CalculateHash(h: HashFn, b: Block): string {
    h(HashInputOf(b))
  }

  /** The stored hash is the one recomputed from the block's own fields. */
  predicate HashConsistent(h: HashFn, b: Block) {
    b.hash == Some(CalculateHash(h, b))
  }

  /**
   Changing any one hashed field, the others kept, changes the digest. This is
   what a collision-free hash gives for the formatted fields: the formatting
   separates each field from its neighbours only when the rest stay fixed, so
   a hash injective on all four fields together is not assumed.
   */
  ghost predicate FieldwiseInjective(h: HashFn) {
    && (forall x: HashInput, i: nat :: i != x.index ==> h(x.(index := i)) != h(x))
    && (forall x: HashInput, p: Option<string> :: p != x.previousHash ==> h(x.(previousHash := p)) != h(x))
    && (forall x: HashInput, t: Timestamp :: t != x.timestamp ==> h(x.(timestamp := t)) != h(x))
    && (forall x: HashInput, d: string :: d != x.data ==> h(x.(data := d)) != h(x))
  }

  /** The recomputed hash never depends on the stored hash. */
  lemma CalculateHashIgnoresStoredHash(h: HashFn, b: Block, stored: Option<string>)
    ensures CalculateHash(h, b.(hash := stored)) == CalculateHash(h, b)
  {
  }

  /** Stores the recomputed hash; no other field changes. */
  function SetHash(h: HashFn, b: Block): (r: Block)
    ensures HashConsistent(h, r)
    ensures r.(hash := b.hash) == b
    ensures HashConsistent(h, b) ==> r == b
  {
    b.(hash := Some(CalculateHash(h, b)))
  }

  // The individual checks a block must pass, given the block it claims to follow
  // (`None` means it claims to be the genesis block).

  predicate IndexFollows(b: Block, previous: Option<Block>) {
    match previous
    case None => b.index == 0
    case Some(p) => b.index == p.index + 1
  }

  /** The link is checked against the predecessor's RECOMPUTED hash, not its stored one. */
  predicate LinkHolds(h: HashFn, b: Block, previous: Option<Block>) {
    match previous
    case None => b.previousHash == None
    case Some(p) => b.previousHash == Some(CalculateHash(h, p))
  }

  /** Only a block claiming to be genesis is constrained in its payload. */
  predicate PayloadAllowed(b: Block, previous: Option<Block>) {
    previous.Some? || b.data == GenesisData
  }

  /** Every violation `b` exhibits, reported or not. */
  function Violations(h: HashFn, b: Block, previous: Option<Block>): set<IntegrityViolation> {
    (if IndexFollows(b, previous) then {} else {InvalidIndex})
    + (if LinkHolds(h, b, previous) then {} else {InvalidPreviousHash})
    + (if PayloadAllowed(b, previous) then {} else {InvalidGenesis})
    + (if HashConsistent(h, b) then {} else {InvalidHash})
  }

  /** Precedence of the checks: lower rank is checked, and so reported, first. */
  function Rank(v: IntegrityViolation): nat {
    match v
    case InvalidIndex => 0
    case InvalidPreviousHash => 1
    case InvalidGenesis => 2
    case InvalidHash => 3
  }

  /**
   Validates `b` against the block it claims to follow. The checks run in a
   fixed order and the first that fails is reported: index, then link, then
   (genesis only) payload, then the block's own hash.
   */
  function CheckIntegrity(h: HashFn, b: Block, previous: Option<Block>): (r: Outcome<IntegrityViolation>)
    ensures r == Fail(InvalidIndex) <==> !IndexFollows(b, previous)
    ensures r == Fail(InvalidPreviousHash) <==> IndexFollows(b, previous) && !LinkHolds(h, b, previous)
    ensures r == Fail(InvalidGenesis) <==>
      IndexFollows(b, previous) && LinkHolds(h, b, previous) && !PayloadAllowed(b, previous)
    ensures r == Fail(InvalidHash) <==>
      IndexFollows(b, previous) && LinkHolds(h, b, previous) && PayloadAllowed(b, previous) && !HashConsistent(h, b)
    ensures r == Pass <==> Violations(h, b, previous) == {}
    ensures previous.Some? ==> r != Fail(InvalidGenesis)
    ensures b.hash.None? ==> r.Fail?
  {
    var linked :=
      match previous
      case Some(p) =>
        if b.index != p.index + 1 then Fail(InvalidIndex)
        else if b.previousHash != Some(CalculateHash(h, p)) then Fail(InvalidPreviousHash)
        else Pass
      case None =>
        if b.index != 0 then Fail(InvalidIndex)
        else if b.previousHash != None then Fail(InvalidPreviousHash)
        else if b.data != GenesisData then Fail(InvalidGenesis)
        else Pass;
    if linked.Fail? then linked
    else if b.hash != Some(CalculateHash(h, b)) then Fail(InvalidHash)
    else Pass
  }

  /** The reported violation is the one of highest precedence among all the block exhibits. */
  lemma ReportsHighestPrecedenceViolation(h: HashFn, b: Block, previous: Option<Block>)
    ensures CheckIntegrity(h, b, previous).Fail? ==>
      var v := CheckIntegrity(h, b, previous).error;
      v in Violations(h, b, previous) && forall w :: w in Violations(h, b, previous) ==> Rank(v) <= Rank(w)
  {
  }

  /** The fixed first block: index 0, no predecessor, the sentinel payload. */
  function Genesis(h: HashFn, now: Timestamp): (g: Block)
    ensures g.index == 0 && g.previousHash == None && g.data == GenesisData && g.timestamp == now
    ensures HashConsistent(h, g)
    ensures CheckIntegrity(h, g, None) == Pass
  {
    SetHash(h, Block(0, None, None, now, GenesisData))
  }

  /**
   The successor of `b` carrying `data`. It links to `b`'s STORED hash, so it
   validates against `b` exactly when `b`'s stored hash is consistent.
   */
  function GenerateNext(h: HashFn, b: Block, data: string, now: Timestamp): (n: Block)
    ensures n.index == b.index + 1 && n.previousHash == b.hash && n.data == data && n.timestamp == now
    ensures HashConsistent(h, n)
    ensures HashConsistent(h, b) ==> CheckIntegrity(h, n, Some(b)) == Pass
    ensures !HashConsistent(h, b) ==> CheckIntegrity(h, n, Some(b)) == Fail(InvalidPreviousHash)
  {
    SetHash(h, Block(b.index + 1, None, b.hash, now, data))
  }

  // Tampering with one field of a valid block, leaving its stored hash alone.

  lemma TamperedIndexIsInvalidIndex(h: HashFn, b: Block, previous: Option<Block>, i: nat)
    requires CheckIntegrity(h, b, previous) == Pass
    requires i != b.index
    ensures CheckIntegrity(h, b.(index := i), previous) == Fail(InvalidIndex)
  {
  }

  lemma TamperedPreviousHashIsInvalidPreviousHash(h: HashFn, b: Block, previous: Option<Block>, p: Option<string>)
    requires CheckIntegrity(h, b, previous) == Pass
    requires p != b.previousHash
    ensures CheckIntegrity(h, b.(previousHash := p), previous) == Fail(InvalidPreviousHash)
  {
  }

  lemma TamperedTimestampIsInvalidHash(h: HashFn, b: Block, previous: Option<Block>, t: Timestamp)
    requires FieldwiseInjective(h)
    requires CheckIntegrity(h, b, previous) == Pass
    requires t != b.timestamp
    ensures CheckIntegrity(h, b.(timestamp := t), previous) == Fail(InvalidHash)
  {
  }

  /** At the genesis position the payload check fires first; elsewhere only the hash betrays the change. */
  lemma TamperedDataIsDetected(h: HashFn, b: Block, previous: Option<Block>, d: string)
    requires FieldwiseInjective(h)
    requires CheckIntegrity(h, b, previous) == Pass
    requires d != b.data
    ensures CheckIntegrity(h, b.(data := d), previous) ==
      if previous.None? then Fail(InvalidGenesis) else Fail(InvalidHash)
  {
  }
}
