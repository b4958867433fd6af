/**
 The ledger: an ordered sequence of blocks starting at genesis, its
 left-to-right validation, and the strict longest-valid-chain replacement rule.
 */
module Chain {
  import opened Wrappers
  import opened Blocks

  /** The ledger state. Every reachable state satisfies `Invariant`. */
  datatype Blockchain = Blockchain(blocks: seq<Block>)

  /** The block position `i` is validated against: none at the head, the block before it otherwise. */
  function PreviousOf(bs: seq<Block>, i: nat): Option<Block>
    requires i <= |bs|
  {
    if i == 0 then None else Some(bs[i - 1])
  }

  /** The block at position `i` passes its own check. */
  predicate PassesAt(h: HashFn, bs: seq<Block>, i: nat)
    requires i < |bs|
  {
    Blocks.CheckIntegrity(h, bs[i], PreviousOf(bs, i)) == Pass
  }

  /** Every position passes. */
  predicate ValidChain(h: HashFn, bs: seq<Block>) {
    forall i :: 0 <= i < |bs| ==> PassesAt(h, bs, i)
  }

  /** Position `k` is the first to fail, and fails with `v`. */
  predicate FirstFailure(h: HashFn, bs: seq<Block>, k: nat, v: IntegrityViolation) {
    && k < |bs|
    && Blocks.CheckIntegrity(h, bs[k], PreviousOf(bs, k)) == Fail(v)
    && forall j :: 0 <= j < k ==> PassesAt(h, bs, j)
  }

  /** The chain invariant of the ledger state: non-empty and valid. */
  predicate Invariant(h: HashFn, c: Blockchain) {
    |c.blocks| > 0 && ValidChain(h, c.blocks)
  }

  /**
   The loop of the chain check from position `i` on, with `previous` the
   block seen just before `i`; stops at the first failing position.
   */
  function Walk(h: HashFn, bs: seq<Block>, i: nat, previous: Option<Block>): (r: Outcome<(nat, IntegrityViolation)>)
    requires i <= |bs|
    requires previous == PreviousOf(bs, i)
    ensures r.Pass? <==> forall j :: i <= j < |bs| ==> PassesAt(h, bs, j)
    ensures r.Fail? ==>
      && i <= r.error.0 < |bs|
      && Blocks.CheckIntegrity(h, bs[r.error.0], PreviousOf(bs, r.error.0)) == Fail(r.error.1)
      && forall j :: i <= j < r.error.0 ==> PassesAt(h, bs, j)
    decreases |bs| - i
  {
    if i == |bs| then Pass
    else
      match Blocks.CheckIntegrity(h, bs[i], previous)
      case Fail(v) => assert !PassesAt(h, bs, i); Fail((i, v))
      case Pass => Walk(h, bs, i + 1, Some(bs[i]))
  }

  /**
   Validates a whole candidate sequence. `Pass` when every block passes
   against its predecessor; otherwise the first failing position and its
   violation. An empty sequence is vacuously valid.
   */
  function CheckIntegrity(h: HashFn, bs: seq<Block>): (r: Outcome<(nat, IntegrityViolation)>)
    ensures r.Pass? <==> ValidChain(h, bs)
    ensures r.Fail? ==> FirstFailure(h, bs, r.error.0, r.error.1)
    ensures |bs| == 0 ==> r == Pass
  {
    Walk(h, bs, 0, None)
  }

  /** The converse of the first-failure contract: whatever fails first is what is reported. */
  lemma FirstFailureIsReported(h: HashFn, bs: seq<Block>, k: nat, v: IntegrityViolation)
    requires FirstFailure(h, bs, k, v)
    ensures CheckIntegrity(h, bs) == Fail((k, v))
  {
    var r := CheckIntegrity(h, bs);
    assert !PassesAt(h, bs, k);
    if r.Fail? {
      var k' := r.error.0;
      assert k' < k ==> PassesAt(h, bs, k');
    }
  }

  /** A ledger holding only the genesis block. */
  function New(h: HashFn, now: Timestamp): (c: Blockchain)
    ensures |c.blocks| == 1 && c.blocks[0] == Genesis(h, now)
    ensures Invariant(h, c)
    ensures CheckIntegrity(h, c.blocks) == Pass
  {
    Blockchain([Genesis(h, now)])
  }

  /**
   The strict longest-valid-chain rule: the candidate replaces the ledger
   exactly when it is valid and strictly longer; otherwise nothing changes.
   The two reasons for rejection are not told apart.
   */
  function ReplaceChain(h: HashFn, c: Blockchain, candidate: seq<Block>): (r: (Blockchain, Outcome<()>))
    ensures r.1 == Pass <==> ValidChain(h, candidate) && |candidate| > |c.blocks|
    ensures r.1 == Pass ==> r.0.blocks == candidate
    ensures r.1.Fail? ==> r.0 == c
    ensures Invariant(h, c) ==> Invariant(h, r.0)
    ensures |r.0.blocks| >= |c.blocks|
    ensures |candidate| == 0 ==> r.1.Fail?
  {
    if CheckIntegrity(h, candidate).Pass? && |candidate| > |c.blocks| then
      (Blockchain(candidate), Pass)
    else
      (c, Fail(()))
  }

  /**
   The chain invariant stated field by field, independently of the block
   check: a genesis-shaped head, every stored hash consistent, and every
   later block numbered and linked after the one before it.
   */
  predicate WellLinked(h: HashFn, bs: seq<Block>) {
    && (|bs| > 0 ==> bs[0].index == 0 && bs[0].previousHash == None && bs[0].data == GenesisData)
    && (forall i :: 0 <= i < |bs| ==> HashConsistent(h, bs[i]))
    && (forall i :: 0 < i < |bs| ==> bs[i].index == bs[i - 1].index + 1 && bs[i].previousHash == bs[i - 1].hash)
  }

  lemma ValidChainIffWellLinked(h: HashFn, bs: seq<Block>)
    ensures ValidChain(h, bs) <==> WellLinked(h, bs)
  {
    if ValidChain(h, bs) {
      forall i | 0 <= i < |bs|
        ensures HashConsistent(h, bs[i])
      {
        assert PassesAt(h, bs, i);
      }
      forall i | 0 < i < |bs|
        ensures bs[i].index == bs[i - 1].index + 1 && bs[i].previousHash == bs[i - 1].hash
      {
        assert PassesAt(h, bs, i);
        assert PassesAt(h, bs, i - 1);
      }
      if |bs| > 0 {
        assert PassesAt(h, bs, 0);
      }
    }
    if WellLinked(h, bs) {
      forall i | 0 <= i < |bs|
        ensures PassesAt(h, bs, i)
      {
        assert HashConsistent(h, bs[i]);
        if i > 0 {
          assert HashConsistent(h, bs[i - 1]);
        }
      }
    }
  }

  /** In a valid chain every block's index is its position. */
  lemma {:induction false} ValidChainIndexIsPosition(h: HashFn, bs: seq<Block>, i: nat)
    requires ValidChain(h, bs)
    requires i < |bs|
    ensures bs[i].index == i
  {
    assert PassesAt(h, bs, i);
    if i > 0 {
      ValidChainIndexIsPosition(h, bs, i - 1);
    }
  }

  /** Every prefix of a valid chain is valid. */
  lemma ValidPrefix(h: HashFn, bs: seq<Block>, n: nat)
    requires ValidChain(h, bs)
    requires n <= |bs|
    ensures ValidChain(h, bs[..n])
  {
    forall i | 0 <= i < n
      ensures PassesAt(h, bs[..n], i)
    {
      assert PassesAt(h, bs, i);
      assert PreviousOf(bs[..n], i) == PreviousOf(bs, i);
    }
  }

  /** Appending the last block's successor keeps a non-empty chain valid. */
  lemma AppendNextKeepsValid(h: HashFn, bs: seq<Block>, data: string, now: Timestamp)
    requires |bs| > 0 && ValidChain(h, bs)
    ensures ValidChain(h, bs + [GenerateNext(h, bs[|bs| - 1], data, now)])
  {
    var last := bs[|bs| - 1];
    var bs' := bs + [GenerateNext(h, last, data, now)];
    assert PassesAt(h, bs, |bs| - 1);
    forall i | 0 <= i < |bs'|
      ensures PassesAt(h, bs', i)
    {
      if i < |bs| {
        assert PassesAt(h, bs, i);
        assert bs'[i] == bs[i] && PreviousOf(bs', i) == PreviousOf(bs, i);
      }
    }
  }

  /** One mint request: a payload and the time it was minted at. */
  datatype Mint = Mint(data: string, timestamp: Timestamp)

  /** The chain obtained from genesis by appending `last.generate_next(..)` once per mint, in order. */
  function Build(h: HashFn, genesisTime: Timestamp, mints: seq<Mint>): (bs: seq<Block>)
    ensures |bs| == |mints| + 1
    ensures bs[0] == Genesis(h, genesisTime)
    decreases |mints|
  {
    if |mints| == 0 then [Genesis(h, genesisTime)]
    else
      var prefix := Build(h, genesisTime, mints[..|mints| - 1]);
      var m := mints[|mints| - 1];
      prefix + [GenerateNext(h, prefix[|prefix| - 1], m.data, m.timestamp)]
  }

  /** Any chain grown from genesis by successive `generate_next` passes the chain check. */
  lemma {:induction false} BuildIsValid(h: HashFn, genesisTime: Timestamp, mints: seq<Mint>)
    ensures ValidChain(h, Build(h, genesisTime, mints))
    ensures CheckIntegrity(h, Build(h, genesisTime, mints)) == Pass
    decreases |mints|
  {
    var bs := Build(h, genesisTime, mints);
    if |mints| == 0 {
      assert PassesAt(h, bs, 0);
    } else {
      var prefix := Build(h, genesisTime, mints[..|mints| - 1]);
      BuildIsValid(h, genesisTime, mints[..|mints| - 1]);
      AppendNextKeepsValid(h, prefix, mints[|mints| - 1].data, mints[|mints| - 1].timestamp);
    }
  }

  /** Each minted block carries its payload at the position after genesis given by its order. */
  lemma {:induction false} BuildCarriesPayloads(h: HashFn, genesisTime: Timestamp, mints: seq<Mint>, i: nat)
    requires 0 < i <= |mints|
    ensures Build(h, genesisTime, mints)[i].data == mints[i - 1].data
    ensures Build(h, genesisTime, mints)[i].index == i
    decreases |mints|
  {
    var prefix := Build(h, genesisTime, mints[..|mints| - 1]);
    if i < |mints| {
      BuildCarriesPayloads(h, genesisTime, mints[..|mints| - 1], i);
    } else {
      BuildIsValid(h, genesisTime, mints[..|mints| - 1]);
      ValidChainIndexIsPosition(h, prefix, |prefix| - 1);
    }
  }

  /** Changing one block's link away from its predecessor's hash is reported at that position. */
  lemma TamperedLinkIsReportedAt(h: HashFn, bs: seq<Block>, i: nat, p: Option<string>)
    requires ValidChain(h, bs)
    requires 0 < i < |bs|
    requires p != Some(CalculateHash(h, bs[i - 1]))
    ensures CheckIntegrity(h, bs[i := bs[i].(previousHash := p)]) == Fail((i, InvalidPreviousHash))
  {
    var bs' := bs[i := bs[i].(previousHash := p)];
    assert PassesAt(h, bs, i);
    forall j | 0 <= j < i
      ensures PassesAt(h, bs', j)
    {
      assert PassesAt(h, bs, j);
      assert bs'[j] == bs[j] && PreviousOf(bs', j) == PreviousOf(bs, j);
    }
    FirstFailureIsReported(h, bs', i, InvalidPreviousHash);
  }

  /** Changing one non-genesis block's payload is reported as a bad hash at that position. */
  lemma TamperedPayloadIsReportedAt(h: HashFn, bs: seq<Block>, i: nat, d: string)
    requires FieldwiseInjective(h)
    requires ValidChain(h, bs)
    requires 0 < i < |bs|
    requires d != bs[i].data
    ensures CheckIntegrity(h, bs[i := bs[i].(data := d)]) == Fail((i, InvalidHash))
  {
    var bs' := bs[i := bs[i].(data := d)];
    assert PassesAt(h, bs, i);
    TamperedDataIsDetected(h, bs[i], PreviousOf(bs, i), d);
    forall j | 0 <= j < i
      ensures PassesAt(h, bs', j)
    {
      assert PassesAt(h, bs, j);
      assert bs'[j] == bs[j] && PreviousOf(bs', j) == PreviousOf(bs, j);
    }
    FirstFailureIsReported(h, bs', i, InvalidHash);
  }

  /** Dropping any block but the last leaves an index gap, reported where the gap opens. */
  lemma RemovedBlockIsReportedAt(h: HashFn, bs: seq<Block>, i: nat)
    requires ValidChain(h, bs)
    requires i + 1 < |bs|
    ensures CheckIntegrity(h, bs[..i] + bs[i + 1..]) == Fail((i, InvalidIndex))
  {
    var bs' := bs[..i] + bs[i + 1..];
    assert bs'[i] == bs[i + 1];
    ValidChainIndexIsPosition(h, bs, i + 1);
    if i > 0 {
      assert bs'[i - 1] == bs[i - 1];
      ValidChainIndexIsPosition(h, bs, i - 1);
    }
    forall j | 0 <= j < i
      ensures PassesAt(h, bs', j)
    {
      assert PassesAt(h, bs, j);
      assert bs'[j] == bs[j] && PreviousOf(bs', j) == PreviousOf(bs, j);
    }
    FirstFailureIsReported(h, bs', i, InvalidIndex);
  }

  /**
   Start from a new ledger, mint "A" onto it: the two-block chain is valid
   and replaces the new ledger, after which the original one-block chain
   can no longer replace it.
   */
  lemma MintThenReplace(h: HashFn, t0: Timestamp, t1: Timestamp)
    ensures
      var initial := New(h, t0);
      var grown := initial.blocks + [GenerateNext(h, initial.blocks[0], "A", t1)];
      && grown[1].index == 1 && grown[1].data == "A"
      && grown[1].previousHash == Some(CalculateHash(h, Genesis(h, t0)))
      && CheckIntegrity(h, grown) == Pass
      && ReplaceChain(h, initial, grown) == (Blockchain(grown), Pass)
      && ReplaceChain(h, Blockchain(grown), initial.blocks).1.Fail?
  {
  }
}
