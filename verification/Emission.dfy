/** twin-protocol/src/emission.rs: one minute of the emission ledger. */
module Emission {
  import opened Wire

  const MICRO_ASE_PER_MINUTE: nat := 1_000_000
  const INHERITANCE_WALLET_COUNT: nat := 1_440
  const GENESIS_DIFFICULTY: real := 0.777
  const MAX_DIFFICULTY: real := 0.98
  const DIFFICULTY_STEP: real := 0.001
  const DIFFICULTY_EPOCH_BLOCKS: nat := 2_016

  const GENESIS_CHAIN_HASH: Hash := [
    0x4f, 0x53, 0x4f, 0x56, 0x4d, 0x5f, 0x47, 0x45,
    0x4e, 0x45, 0x53, 0x49, 0x53, 0x5f, 0x32, 0x30,
    0x32, 0x36, 0x30, 0x39, 0x31, 0x30, 0x5f, 0x41,
    0x53, 0x48, 0x45, 0x5f, 0x01, 0x44, 0x05, 0xa0
  ]

  datatype UtxoKey = UtxoKey(veilId: nat, epochMinute: U64, trajectoryHash: Hash)

  datatype Utxo = Utxo(key: UtxoKey, workerDid: Bytes, claimed: bool, claimedAtMinute: U64)

  datatype ProofClaim = ProofClaim(
    proofId: Bytes, workerDid: Bytes, veilId: nat, epochMinute: U64, trajectoryHash: Hash,
    f1Score: real, proofValue: real, envHash: Hash)
  {
    function Key(): UtxoKey {
      UtxoKey(veilId, epochMinute, trajectoryHash)
    }
  }

  datatype WorkerAllocation = WorkerAllocation(workerDid: Bytes, proofId: Bytes, microAse: U64, weightedScore: real)

  datatype MinuteAllocation = MinuteAllocation(
    epochMinute: U64, timestampUtc: U64, totalMicroAse: U64, workers: seq<WorkerAllocation>,
    inheritanceFallback: bool, microAsePerWallet: U64, difficultyUsed: real,
    rejectedProofIds: seq<Bytes>, claimedUtxoKeys: seq<UtxoKey>)

  datatype MintAuthorization = MintAuthorization(
    epochMinute: U64, allocations: seq<WorkerAllocation>, inheritanceFallback: bool,
    microAsePerWallet: U64, receiptHash: Hash)

  /** The three fields of DailyEmissionAllocator. */
  datatype Ledger = Ledger(envCounts: map<Hash, nat>, claimed: map<UtxoKey, Utxo>, tip: Hash)

  /** What one call of allocate_minute is given. */
  datatype Minute = Minute(epochMinute: U64, timestampUtc: U64, claims: seq<ProofClaim>)

  /** An eligible claim with its weight in this minute. */
  datatype Scored = Scored(claim: ProofClaim, weighted: real)

  // ----- the pure parts

  /** The square root is not computed here; these equations single out 1 and then 1/sqrt(n). */
  ghost predicate IsNoveltyWeight(w: nat -> real) {
    && w(0) == 1.0
    && forall n: nat :: n > 0 ==> w(n) > 0.0 && w(n) * w(n) * n as real == 1.0
  }

  ghost predicate PositiveWeight(w: nat -> real) {
    forall n: nat :: w(n) > 0.0
  }

  function CurrentDifficulty(epochMinute: nat): real {
    var adjusted := GENESIS_DIFFICULTY + (epochMinute / DIFFICULTY_EPOCH_BLOCKS) as real * DIFFICULTY_STEP;
    if adjusted < MAX_DIFFICULTY then adjusted else MAX_DIFFICULTY
  }

  predicate IsSabbath(timestampUtc: nat) {
    (timestampUtc / 86_400 + 4) % 7 == 6
  }

  /** The bytes receipt_hash absorbs for its workers. */
  function WorkerBytes(workers: seq<WorkerAllocation>): Bytes {
    if workers == [] then []
    else workers[0].workerDid + LeU64(workers[0].microAse) + WorkerBytes(workers[1..])
  }

  function ReceiptBody(a: MinuteAllocation): Bytes {
    LeU64(a.epochMinute) + LeU64(a.totalMicroAse) + WorkerBytes(a.workers)
  }

  function ReceiptMessage(prev: Hash, a: MinuteAllocation): Bytes {
    prev + ReceiptBody(a)
  }

  function ReceiptHash(h: HashFn, prev: Hash, a: MinuteAllocation): Hash {
    h(ReceiptMessage(prev, a))
  }

  function CountOf(counts: map<Hash, nat>, env: Hash): nat {
    if env in counts then counts[env] else 0
  }

  /** The filter of the first loop. It looks only at the ledger as it was before the minute. */
  predicate Passes(l: Ledger, difficulty: real, c: ProofClaim) {
    c.f1Score >= difficulty && !(c.Key() in l.claimed && l.claimed[c.Key()].claimed)
  }

  function Weighted(f1: real, novelty: real): real {
    f1 * novelty
  }

  function Score(l: Ledger, w: nat -> real, c: ProofClaim): Scored {
    Scored(c, Weighted(c.f1Score, w(CountOf(l.envCounts, c.envHash))))
  }

  function Eligible(l: Ledger, w: nat -> real, difficulty: real, claims: seq<ProofClaim>): (e: seq<Scored>)
    ensures |e| <= |claims|
  {
    if claims == [] then []
    else
      var c := claims[|claims| - 1];
      var front := Eligible(l, w, difficulty, claims[..|claims| - 1]);
      if Passes(l, difficulty, c) then front + [Score(l, w, c)] else front
  }

  function Rejected(l: Ledger, difficulty: real, claims: seq<ProofClaim>): seq<Bytes> {
    if claims == [] then []
    else
      var c := claims[|claims| - 1];
      var front := Rejected(l, difficulty, claims[..|claims| - 1]);
      if Passes(l, difficulty, c) then front else front + [c.proofId]
  }

  // ----- shares

  function TotalWeight(e: seq<Scored>): real {
    if e == [] then 0.0 else TotalWeight(e[..|e| - 1]) + e[|e| - 1].weighted
  }

  function Sum(s: seq<nat>): nat {
    if s == [] then 0 else Sum(s[..|s| - 1]) + s[|s| - 1]
  }

  predicate Positive(e: seq<Scored>) {
    forall i :: 0 <= i < |e| ==> e[i].weighted > 0.0
  }

  function ExactShare(weight: real, total: real): real
    requires total > 0.0
  {
    weight / total * MICRO_ASE_PER_MINUTE as real
  }

  /** The cast of a non-negative f64 to u64 drops the fraction. */
  function FloorShare(weight: real, total: real): (s: nat)
    requires weight >= 0.0 && total > 0.0
    ensures s as real <= ExactShare(weight, total) < s as real + 1.0
  {
    assert weight / total >= 0.0;
    ExactShare(weight, total).Floor
  }

  function FloorShares(e: seq<Scored>, total: real): (s: seq<nat>)
    requires Positive(e) && total > 0.0
    ensures |s| == |e|
    ensures forall i :: 0 <= i < |e| ==> s[i] == FloorShare(e[i].weighted, total)
  {
    seq(|e|, i requires 0 <= i < |e| => FloorShare(e[i].weighted, total))
  }

  lemma {:induction false} TotalWeightPositive(e: seq<Scored>)
    requires Positive(e)
    ensures TotalWeight(e) >= 0.0
    ensures e != [] ==> TotalWeight(e) >= e[|e| - 1].weighted > 0.0
  {
    if e != [] {
      TotalWeightPositive(e[..|e| - 1]);
    }
  }

  lemma ExactShareAdds(a: real, b: real, total: real)
    requires total > 0.0
    ensures ExactShare(a, total) + ExactShare(b, total) == ExactShare(a + b, total)
  {
    assert a / total + b / total == (a + b) / total;
  }

  /** The floors of a prefix lose less than one unit each against the exact proportion. */
  lemma {:induction false} FloorsBelowExact(e: seq<Scored>, total: real)
    requires Positive(e) && total > 0.0
    ensures var s := Sum(FloorShares(e, total)) as real;
            s <= ExactShare(TotalWeight(e), total) <= s + |e| as real
    ensures e != [] ==> ExactShare(TotalWeight(e), total) < Sum(FloorShares(e, total)) as real + |e| as real
  {
    if e != [] {
      var front, last := e[..|e| - 1], e[|e| - 1];
      FloorsBelowExact(front, total);
      ExactShareAdds(TotalWeight(front), last.weighted, total);
      assert FloorShares(e, total)[..|e| - 1] == FloorShares(front, total);
    }
  }

  lemma ExactShareOfAll(total: real)
    requires total > 0.0
    ensures ExactShare(total, total) == MICRO_ASE_PER_MINUTE as real
  {
    assert total / total == 1.0;
  }

  /** What all workers but the last are given, and the exact share left for the last. */
  lemma LeftForLast(e: seq<Scored>)
    requires e != [] && Positive(e)
    ensures TotalWeight(e) > 0.0
    ensures var front, total := e[..|e| - 1], TotalWeight(e);
            var given := Sum(FloorShares(front, total)) as real;
            var exact := ExactShare(e[|e| - 1].weighted, total);
            && exact >= 0.0
            && given + exact <= MICRO_ASE_PER_MINUTE as real <= given + exact + |front| as real
            && (front != [] ==> MICRO_ASE_PER_MINUTE as real < given + exact + |front| as real)
  {
    TotalWeightPositive(e);
    var front, last, total := e[..|e| - 1], e[|e| - 1], TotalWeight(e);
    FloorsBelowExact(front, total);
    ExactShareAdds(TotalWeight(front), last.weighted, total);
    ExactShareOfAll(total);
    assert last.weighted / total >= 0.0;
  }

  lemma {:induction false} SumBounds(s: seq<nat>)
    ensures forall i :: 0 <= i < |s| ==> s[i] <= Sum(s)
  {
    if s != [] {
      SumBounds(s[..|s| - 1]);
    }
  }

  lemma SumAppend(s: seq<nat>, x: nat)
    ensures Sum(s + [x]) == Sum(s) + x
  {
    assert (s + [x])[..|s|] == s;
  }

  /** Floors for all but the last worker, who gets what is left of the minute. */
  function Shares(e: seq<Scored>): (s: seq<nat>)
    requires e != [] && Positive(e)
    ensures |s| == |e|
    ensures Sum(s) == MICRO_ASE_PER_MINUTE
  {
    LeftForLast(e);
    var floors := FloorShares(e[..|e| - 1], TotalWeight(e));
    SumAppend(floors, MICRO_ASE_PER_MINUTE - Sum(floors));
    floors + [MICRO_ASE_PER_MINUTE - Sum(floors)]
  }

  /** Every worker but the last gets exactly the floor of its proportional share. */
  lemma OtherShares(e: seq<Scored>, i: nat)
    requires e != [] && Positive(e) && i < |e| - 1
    ensures TotalWeight(e) > 0.0
    ensures var exact := ExactShare(e[i].weighted, TotalWeight(e));
            Shares(e)[i] as real <= exact < Shares(e)[i] as real + 1.0
  {
    LeftForLast(e);
  }

  /** Rounding goes to the last worker and nowhere else: it gets at least its exact share, and
      less than that plus one unit for every other worker. */
  lemma LastShare(e: seq<Scored>)
    requires e != [] && Positive(e)
    ensures TotalWeight(e) > 0.0
    ensures var exact := ExactShare(e[|e| - 1].weighted, TotalWeight(e));
            var last := Shares(e)[|e| - 1] as real;
            && exact <= last
            && (|e| >= 2 ==> last < exact + (|e| - 1) as real)
            && (|e| == 1 ==> last == exact)
  {
    LeftForLast(e);
    if |e| == 1 {
      assert e[..0] == [];
      assert FloorShares(e[..0], TotalWeight(e)) == [];
    }
  }

  lemma {:induction false} SumOfPrefix(s: seq<nat>, i: nat)
    requires i <= |s|
    ensures Sum(s[..i]) <= Sum(s)
  {
    if i < |s| {
      assert s[..|s| - 1][..i] == s[..i];
      SumOfPrefix(s[..|s| - 1], i);
    } else {
      assert s[..i] == s;
    }
  }

  /** The running total never exceeds the minute, so the last subtraction cannot underflow. */
  lemma ShareAt(e: seq<Scored>, i: nat)
    requires e != [] && Positive(e) && i < |e|
    ensures TotalWeight(e) > 0.0
    ensures Shares(e)[i] <= MICRO_ASE_PER_MINUTE
    ensures Sum(Shares(e)[..i]) <= MICRO_ASE_PER_MINUTE
    ensures i < |e| - 1 ==> Shares(e)[i] == (e[i].weighted / TotalWeight(e) * MICRO_ASE_PER_MINUTE as real).Floor
    ensures i == |e| - 1 ==> Shares(e)[i] == MICRO_ASE_PER_MINUTE - Sum(Shares(e)[..i])
  {
    LeftForLast(e);
    SumBounds(Shares(e));
    SumOfPrefix(Shares(e), i);
    assert Shares(e)[..|e| - 1] == FloorShares(e[..|e| - 1], TotalWeight(e));
  }

  // ----- what an allocating minute does to the ledger

  function Workers(e: seq<Scored>): (r: seq<WorkerAllocation>)
    requires e != [] && Positive(e)
    ensures |r| == |e|
  {
    var shares := Shares(e);
    SumBounds(shares);
    seq(|e|, i requires 0 <= i < |e| =>
      WorkerAllocation(e[i].claim.workerDid, e[i].claim.proofId, shares[i], e[i].weighted))
  }

  function Keys(e: seq<Scored>): (r: seq<UtxoKey>)
    ensures |r| == |e|
  {
    seq(|e|, i requires 0 <= i < |e| => e[i].claim.Key())
  }

  function ClaimAll(claimed: map<UtxoKey, Utxo>, e: seq<Scored>, epochMinute: U64): map<UtxoKey, Utxo> {
    if e == [] then claimed
    else
      var c := e[|e| - 1].claim;
      ClaimAll(claimed, e[..|e| - 1], epochMinute)[c.Key() := Utxo(c.Key(), c.workerDid, true, epochMinute)]
  }

  function CountAll(counts: map<Hash, nat>, e: seq<Scored>): map<Hash, nat> {
    if e == [] then counts
    else
      var env := e[|e| - 1].claim.envHash;
      var before := CountAll(counts, e[..|e| - 1]);
      before[env := CountOf(before, env) + 1]
  }

  lemma ScorePositive(f1: real, novelty: real)
    requires f1 > 0.0 && novelty > 0.0
    ensures Weighted(f1, novelty) > 0.0
  {
  }

  lemma {:induction false} EligiblePositive(l: Ledger, w: nat -> real, epochMinute: nat, claims: seq<ProofClaim>)
    requires PositiveWeight(w)
    ensures Positive(Eligible(l, w, CurrentDifficulty(epochMinute), claims))
  {
    if claims != [] {
      EligiblePositive(l, w, epochMinute, claims[..|claims| - 1]);
      var c := claims[|claims| - 1];
      if Passes(l, CurrentDifficulty(epochMinute), c) {
        ScorePositive(c.f1Score, w(CountOf(l.envCounts, c.envHash)));
      }
    }
  }

  /** The minute's record, without any change to the ledger. */
  function Allocation(l: Ledger, w: nat -> real, m: Minute): (a: MinuteAllocation)
    requires PositiveWeight(w)
  {
    var difficulty := CurrentDifficulty(m.epochMinute);
    if IsSabbath(m.timestampUtc) then
      MinuteAllocation(m.epochMinute, m.timestampUtc, 0, [], false, 0, difficulty,
                       seq(|m.claims|, i requires 0 <= i < |m.claims| => m.claims[i].proofId), [])
    else
      var e := Eligible(l, w, difficulty, m.claims);
      var rejected := Rejected(l, difficulty, m.claims);
      EligiblePositive(l, w, m.epochMinute, m.claims);
      if e == [] then
        MinuteAllocation(m.epochMinute, m.timestampUtc, MICRO_ASE_PER_MINUTE, [], true,
                         MICRO_ASE_PER_MINUTE / INHERITANCE_WALLET_COUNT, difficulty, rejected, [])
      else
        MinuteAllocation(m.epochMinute, m.timestampUtc, MICRO_ASE_PER_MINUTE, Workers(e), false, 0,
                         difficulty, rejected, Keys(e))
  }

  /** The claims paid in a minute. */
  function PaidIn(l: Ledger, w: nat -> real, m: Minute): seq<Scored> {
    if IsSabbath(m.timestampUtc) then [] else Eligible(l, w, CurrentDifficulty(m.epochMinute), m.claims)
  }

  function Next(h: HashFn, w: nat -> real, l: Ledger, m: Minute): Ledger
    requires PositiveWeight(w)
  {
    if IsSabbath(m.timestampUtc) then l
    else
      var paid := PaidIn(l, w, m);
      Ledger(CountAll(l.envCounts, paid), ClaimAll(l.claimed, paid, m.epochMinute),
             ReceiptHash(h, l.tip, Allocation(l, w, m)))
  }

  // ----- the allocator itself

  /** The share of worker i. Whatever the floors leave of the minute goes to the last worker. */
  method ShareOf(e: seq<Scored>, i: nat, totalWeighted: real, distributed: nat) returns (share: nat)
    requires e != [] && Positive(e) && i < |e|
    requires totalWeighted == TotalWeight(e) && distributed == Sum(Shares(e)[..i])
    ensures share == Shares(e)[i] && share <= MICRO_ASE_PER_MINUTE
  {
    ShareAt(e, i);
    if i == |e| - 1 {
      share := MICRO_ASE_PER_MINUTE - distributed;
    } else {
      share := (e[i].weighted / totalWeighted * MICRO_ASE_PER_MINUTE as real).Floor;
    }
  }

  /** Adds up the weights of all eligible claims. */
  method SumWeights(e: seq<Scored>) returns (total: real)
    ensures total == TotalWeight(e)
  {
    total := 0.0;
    for i := 0 to |e|
      invariant total == TotalWeight(e[..i])
    {
      assert e[..i + 1][..i] == e[..i];
      total := total + e[i].weighted;
    }
    assert e[..|e|] == e;
  }

  class DailyEmissionAllocator {
    const h: HashFn
    const weight: nat -> real
    var envHashCounts: map<Hash, nat>
    var claimedUtxos: map<UtxoKey, Utxo>
    var chainHash: Hash

    ghost function State(): Ledger
      reads this
    {
      Ledger(envHashCounts, claimedUtxos, chainHash)
    }

    constructor (h: HashFn, weight: nat -> real)
      ensures State() == Ledger(map[], map[], GENESIS_CHAIN_HASH)
      ensures this.h == h && this.weight == weight
    {
      this.h, this.weight := h, weight;
      envHashCounts, claimedUtxos, chainHash := map[], map[], GENESIS_CHAIN_HASH;
    }

    /** The first loop of allocate_minute: it only reads the ledger. */
    method FilterClaims(difficulty: real, claims: seq<ProofClaim>)
      returns (eligible: seq<Scored>, rejected: seq<Bytes>)
      ensures eligible == Eligible(State(), weight, difficulty, claims)
      ensures rejected == Rejected(State(), difficulty, claims)
    {
      eligible, rejected := [], [];
      for i := 0 to |claims|
        invariant eligible == Eligible(State(), weight, difficulty, claims[..i])
        invariant rejected == Rejected(State(), difficulty, claims[..i])
      {
        var claim := claims[i];
        assert claims[..i + 1][..i] == claims[..i] && claims[..i + 1][i] == claim;
        if claim.f1Score < difficulty {
          rejected := rejected + [claim.proofId];
          continue;
        }
        if claim.Key() in claimedUtxos && claimedUtxos[claim.Key()].claimed {
          rejected := rejected + [claim.proofId];
          continue;
        }
        assert Passes(State(), difficulty, claim);
        var novelty := weight(CountOf(envHashCounts, claim.envHash));
        var scored := Scored(claim, claim.f1Score * novelty);
        assert scored == Score(State(), weight, claim);
        eligible := eligible + [scored];
      }
      assert claims[..|claims|] == claims;
    }

    /** Marks the UTXO claimed and advances the novelty counter. */
    method Mark(claim: ProofClaim, epochMinute: U64)
      modifies this`envHashCounts, this`claimedUtxos
      ensures claimedUtxos
              == old(claimedUtxos)[claim.Key() := Utxo(claim.Key(), claim.workerDid, true, epochMinute)]
      ensures envHashCounts
              == old(envHashCounts)[claim.envHash := CountOf(old(envHashCounts), claim.envHash) + 1]
    {
      claimedUtxos := claimedUtxos[claim.Key() := Utxo(claim.Key(), claim.workerDid, true, epochMinute)];
      envHashCounts := envHashCounts[claim.envHash := CountOf(envHashCounts, claim.envHash) + 1];
    }

    /** The second loop of allocate_minute. */
    method PayAll(epochMinute: U64, eligible: seq<Scored>)
      returns (workers: seq<WorkerAllocation>, keys: seq<UtxoKey>)
      requires eligible != [] && Positive(eligible)
      modifies this`envHashCounts, this`claimedUtxos
      ensures workers == Workers(eligible) && keys == Keys(eligible)
      ensures claimedUtxos == ClaimAll(old(claimedUtxos), eligible, epochMinute)
      ensures envHashCounts == CountAll(old(envHashCounts), eligible)
    {
      var totalWeighted := SumWeights(eligible);
      ghost var shares, all, allKeys := Shares(eligible), Workers(eligible), Keys(eligible);
      var distributed := 0;
      workers, keys := [], [];
      for i := 0 to |eligible|
        invariant workers == all[..i] && keys == allKeys[..i]
        invariant distributed == Sum(shares[..i])
        invariant claimedUtxos == ClaimAll(old(claimedUtxos), eligible[..i], epochMinute)
        invariant envHashCounts == CountAll(old(envHashCounts), eligible[..i])
      {
        assert eligible[..i + 1][..i] == eligible[..i];
        var claim := eligible[i].claim;
        var share := ShareOf(eligible, i, totalWeighted, distributed);
        workers := workers + [WorkerAllocation(claim.workerDid, claim.proofId, share, eligible[i].weighted)];
        keys := keys + [claim.Key()];
        Mark(claim, epochMinute);
        assert shares[..i + 1][..i] == shares[..i];
        distributed := distributed + share;
      }
      assert eligible[..|eligible|] == eligible;
    }

    method AllocateMinute(epochMinute: U64, timestampUtc: U64, claims: seq<ProofClaim>)
      returns (alloc: MinuteAllocation, auth: MintAuthorization)
      requires PositiveWeight(weight)
      modifies this
      ensures var m := Minute(epochMinute, timestampUtc, claims);
              && alloc == Allocation(old(State()), weight, m)
              && State() == Next(h, weight, old(State()), m)
      ensures auth == MintAuthorization(epochMinute, alloc.workers, alloc.inheritanceFallback,
                                        alloc.microAsePerWallet, ReceiptHash(h, old(chainHash), alloc))
    {
      ghost var l := State();
      ghost var m := Minute(epochMinute, timestampUtc, claims);
      var difficulty := CurrentDifficulty(epochMinute);
      if IsSabbath(timestampUtc) {
        var ids := seq(|claims|, i requires 0 <= i < |claims| => claims[i].proofId);
        alloc := MinuteAllocation(epochMinute, timestampUtc, 0, [], false, 0, difficulty, ids, []);
        auth := MintAuthorization(epochMinute, [], false, 0, ReceiptHash(h, chainHash, alloc));
        return;
      }

      var eligible, rejected := FilterClaims(difficulty, claims);
      if eligible == [] {
        var perWallet := MICRO_ASE_PER_MINUTE / INHERITANCE_WALLET_COUNT;
        alloc := MinuteAllocation(epochMinute, timestampUtc, MICRO_ASE_PER_MINUTE, [], true, perWallet,
                                  difficulty, rejected, []);
        chainHash := ReceiptHash(h, chainHash, alloc);
        auth := MintAuthorization(epochMinute, [], true, perWallet, chainHash);
        return;
      }

      EligiblePositive(l, weight, epochMinute, claims);
      var workers, keys := PayAll(epochMinute, eligible);
      alloc := MinuteAllocation(epochMinute, timestampUtc, MICRO_ASE_PER_MINUTE, workers, false, 0,
                                difficulty, rejected, keys);
      chainHash := ReceiptHash(h, chainHash, alloc);
      auth := MintAuthorization(epochMinute, workers, false, 0, chainHash);
    }
  }
}
