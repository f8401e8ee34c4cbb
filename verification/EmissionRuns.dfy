/** What every run of the emission ledger keeps, whatever claims are submitted. */
module EmissionRuns {
  import opened Wire
  import opened Emission
  import opened Sequences

  const GENESIS: Ledger := Ledger(map[], map[], GENESIS_CHAIN_HASH)

  /** The ledger after a run from genesis. */
  function After(h: HashFn, w: nat -> real, run: seq<Minute>): Ledger
    requires PositiveWeight(w)
  {
    if run == [] then GENESIS else Next(h, w, After(h, w, run[..|run| - 1]), run[|run| - 1])
  }

  /** The claims paid in each minute of the run. */
  function Paid(h: HashFn, w: nat -> real, run: seq<Minute>, i: nat): seq<Scored>
    requires PositiveWeight(w) && i < |run|
  {
    PaidIn(After(h, w, run[..i]), w, run[i])
  }

  function Record(h: HashFn, w: nat -> real, run: seq<Minute>, i: nat): MinuteAllocation
    requires PositiveWeight(w) && i < |run|
  {
    Allocation(After(h, w, run[..i]), w, run[i])
  }

  // ----- eligible claims, declaratively

  /** A claim is paid in a minute exactly when it was submitted and passes the filter, at the
      weight the ledger held before the minute. */
  lemma {:induction false} EligibleIff(l: Ledger, w: nat -> real, d: real, claims: seq<ProofClaim>, s: Scored)
    ensures s in Eligible(l, w, d, claims) <==> s.claim in claims && Passes(l, d, s.claim) && s == Score(l, w, s.claim)
  {
    if claims != [] {
      var front, last := claims[..|claims| - 1], claims[|claims| - 1];
      assert claims == front + [last];
      EligibleIff(l, w, d, front, s);
    }
  }

  /** The rejected ids are those of the claims that do not pass, in the order of submission. */
  lemma {:induction false} RejectedInOrder(l: Ledger, d: real, claims: seq<ProofClaim>) returns (at: seq<nat>)
    ensures |at| == |Rejected(l, d, claims)| && forall a, b :: 0 <= a < b < |at| ==> at[a] < at[b]
    ensures forall i: nat :: i in at <==> i < |claims| && !Passes(l, d, claims[i])
    ensures forall a :: 0 <= a < |at| ==> at[a] < |claims| && Rejected(l, d, claims)[a] == claims[at[a]].proofId
  {
    if claims == [] {
      at := [];
    } else {
      var n := |claims| - 1;
      at := RejectedInOrder(l, d, claims[..n]);
      if !Passes(l, d, claims[n]) {
        at := at + [n];
      }
    }
  }

  lemma AnsweredStep(ids: seq<Bytes>, paid: seq<Bytes>, rejected: seq<Bytes>, id: Bytes)
    requires multiset(ids) == multiset(paid) + multiset(rejected)
    ensures multiset(ids + [id]) == multiset(paid + [id]) + multiset(rejected)
    ensures multiset(ids + [id]) == multiset(paid) + multiset(rejected + [id])
  {
  }

  function ClaimIds(claims: seq<ProofClaim>): (r: seq<Bytes>)
    ensures |r| == |claims|
  {
    seq(|claims|, i requires 0 <= i < |claims| => claims[i].proofId)
  }

  function ScoredIds(e: seq<Scored>): (r: seq<Bytes>)
    ensures |r| == |e|
  {
    seq(|e|, i requires 0 <= i < |e| => e[i].claim.proofId)
  }

  lemma {:induction false} PaidOrRejected(l: Ledger, w: nat -> real, d: real, claims: seq<ProofClaim>)
    ensures multiset(ClaimIds(claims))
         == multiset(ScoredIds(Eligible(l, w, d, claims))) + multiset(Rejected(l, d, claims))
  {
    if claims != [] {
      var front, last := claims[..|claims| - 1], claims[|claims| - 1];
      var e := Eligible(l, w, d, front);
      PaidOrRejected(l, w, d, front);
      AnsweredStep(ClaimIds(front), ScoredIds(e), Rejected(l, d, front), last.proofId);
      assert ClaimIds(claims) == ClaimIds(front) + [last.proofId];
      assert ScoredIds(e + [Score(l, w, last)]) == ScoredIds(e) + [last.proofId];
    }
  }

  function WorkerIds(ws: seq<WorkerAllocation>): (r: seq<Bytes>)
    ensures |r| == |ws|
  {
    seq(|ws|, i requires 0 <= i < |ws| => ws[i].proofId)
  }

  /** Every submitted claim is answered exactly once: its proof id is on the list of workers or
      on the list of rejections, with multiplicity. */
  lemma EveryClaimAnswered(l: Ledger, w: nat -> real, m: Minute)
    requires PositiveWeight(w)
    ensures var a := Allocation(l, w, m);
            multiset(ClaimIds(m.claims)) == multiset(WorkerIds(a.workers)) + multiset(a.rejectedProofIds)
  {
    var d := CurrentDifficulty(m.epochMinute);
    var a := Allocation(l, w, m);
    if IsSabbath(m.timestampUtc) {
      assert a.rejectedProofIds == ClaimIds(m.claims);
    } else {
      var e := Eligible(l, w, d, m.claims);
      PaidOrRejected(l, w, d, m.claims);
      EligiblePositive(l, w, m.epochMinute, m.claims);
      if e == [] {
        assert ScoredIds(e) == [] == WorkerIds(a.workers);
      } else {
        assert WorkerIds(Workers(e)) == ScoredIds(e);
      }
    }
  }

  // ----- one-time claims

  lemma {:induction false} ClaimAllKeys(claimed: map<UtxoKey, Utxo>, e: seq<Scored>, epoch: U64)
    ensures var r := ClaimAll(claimed, e, epoch);
            && (forall k :: k in r <==> k in claimed || k in Keys(e))
            && (forall k :: k in Keys(e) ==> r[k].claimed)
            && (forall k :: k in claimed && k !in Keys(e) ==> r[k] == claimed[k])
  {
    if e != [] {
      var front := e[..|e| - 1];
      ClaimAllKeys(claimed, front, epoch);
      assert Keys(e) == Keys(front) + [e[|e| - 1].claim.Key()];
    } else {
      assert Keys(e) == [];
    }
  }

  /** k was paid in minute i of the run. */
  predicate PaidAt(h: HashFn, w: nat -> real, run: seq<Minute>, i: nat, k: UtxoKey)
    requires PositiveWeight(w) && i < |run|
  {
    k in Keys(Paid(h, w, run, i))
  }

  /** All keys paid in the run, minute after minute. */
  function PaidKeys(h: HashFn, w: nat -> real, run: seq<Minute>): seq<UtxoKey>
    requires PositiveWeight(w)
  {
    if run == [] then []
    else PaidKeys(h, w, run[..|run| - 1]) + Keys(Paid(h, w, run, |run| - 1))
  }

  /** The recorded keys are those of the paid claims, in order. */
  lemma RecordKeys(l: Ledger, w: nat -> real, m: Minute)
    requires PositiveWeight(w)
    ensures Allocation(l, w, m).claimedUtxoKeys == Keys(PaidIn(l, w, m))
  {
  }

  /** claimed_utxos holds exactly the keys paid so far, every entry marked claimed. */
  lemma {:induction false} ClaimedIsPaid(h: HashFn, w: nat -> real, run: seq<Minute>, k: UtxoKey)
    requires PositiveWeight(w)
    ensures k in After(h, w, run).claimed <==> k in PaidKeys(h, w, run)
    ensures k in After(h, w, run).claimed ==> After(h, w, run).claimed[k].claimed
  {
    if run != [] {
      var front, m := run[..|run| - 1], run[|run| - 1];
      var l := After(h, w, front);
      ClaimedIsPaid(h, w, front, k);
      ClaimAllKeys(l.claimed, PaidIn(l, w, m), m.epochMinute);
    }
  }

  lemma {:induction false} ClaimAllPayer(claimed: map<UtxoKey, Utxo>, e: seq<Scored>, epoch: U64, k: UtxoKey)
    returns (s: Scored)
    requires k in Keys(e)
    ensures s in e && s.claim.Key() == k
    ensures k in ClaimAll(claimed, e, epoch)
    ensures ClaimAll(claimed, e, epoch)[k] == Utxo(k, s.claim.workerDid, true, epoch)
  {
    var n := |e| - 1;
    if e[n].claim.Key() == k {
      s := e[n];
    } else {
      var j :| 0 <= j < |e| && Keys(e)[j] == k;
      assert Keys(e[..n])[j] == k;
      s := ClaimAllPayer(claimed, e[..n], epoch, k);
    }
  }

  /** The entry of a claimed key names the worker whose claim was paid and the minute it was paid in. */
  lemma {:induction false} EntryNamesPayment(h: HashFn, w: nat -> real, run: seq<Minute>, k: UtxoKey)
    returns (i: nat, s: Scored)
    requires PositiveWeight(w) && k in After(h, w, run).claimed
    ensures i < |run| && s in Paid(h, w, run, i) && s.claim.Key() == k
    ensures After(h, w, run).claimed[k] == Utxo(k, s.claim.workerDid, true, run[i].epochMinute)
  {
    var n := |run| - 1;
    var front, m := run[..n], run[n];
    var l := After(h, w, front);
    ClaimAllKeys(l.claimed, PaidIn(l, w, m), m.epochMinute);
    if k in Keys(PaidIn(l, w, m)) {
      i := n;
      s := ClaimAllPayer(l.claimed, PaidIn(l, w, m), m.epochMinute, k);
    } else {
      i, s := EntryNamesPayment(h, w, front, k);
      assert run[..i] == front[..i];
    }
  }

  lemma {:induction false} PaidKeysGrow(h: HashFn, w: nat -> real, run: seq<Minute>, i: nat, k: UtxoKey)
    requires PositiveWeight(w) && i <= |run| && k in PaidKeys(h, w, run[..i])
    ensures k in PaidKeys(h, w, run)
  {
    if i < |run| {
      assert run[..|run| - 1][..i] == run[..i];
      PaidKeysGrow(h, w, run[..|run| - 1], i, k);
    } else {
      assert run[..i] == run;
    }
  }

  lemma PaidAtIsPaid(h: HashFn, w: nat -> real, run: seq<Minute>, i: nat, k: UtxoKey)
    requires PositiveWeight(w) && i < |run| && PaidAt(h, w, run, i, k)
    ensures k in PaidKeys(h, w, run[..i + 1])
  {
    var upTo := run[..i + 1];
    assert upTo[..|upTo| - 1] == run[..i] && upTo[|upTo| - 1] == run[i];
  }

  lemma KeysMember(e: seq<Scored>, k: UtxoKey) returns (s: Scored)
    requires k in Keys(e)
    ensures s in e && s.claim.Key() == k
  {
    var i :| 0 <= i < |e| && Keys(e)[i] == k;
    s := e[i];
  }

  lemma NotPaidTwice(h: HashFn, w: nat -> real, run: seq<Minute>, j: nat, k: UtxoKey)
    requires PositiveWeight(w) && j < |run|
    requires k in PaidKeys(h, w, run[..j])
    ensures !PaidAt(h, w, run, j, k)
  {
    var l := After(h, w, run[..j]);
    ClaimedIsPaid(h, w, run[..j], k);
    if PaidAt(h, w, run, j, k) {
      var s := KeysMember(Paid(h, w, run, j), k);
      EligibleIff(l, w, CurrentDifficulty(run[j].epochMinute), run[j].claims, s);
      assert false;
    }
  }

  /** A key paid in one minute is never paid in a later one. */
  lemma NeverPaidAgain(h: HashFn, w: nat -> real, run: seq<Minute>, i: nat, j: nat, k: UtxoKey)
    requires PositiveWeight(w) && i < j < |run|
    requires k in Record(h, w, run, i).claimedUtxoKeys
    ensures k !in Record(h, w, run, j).claimedUtxoKeys
  {
    RecordKeys(After(h, w, run[..i]), w, run[i]);
    RecordKeys(After(h, w, run[..j]), w, run[j]);
    PaidAtIsPaid(h, w, run, i, k);
    assert run[..j][..i + 1] == run[..i + 1];
    PaidKeysGrow(h, w, run[..j], i + 1, k);
    NotPaidTwice(h, w, run, j, k);
  }

  /** Two claims of one batch carry the same key and both get past the filter. */
  predicate Twins(l: Ledger, d: real, claims: seq<ProofClaim>, a: nat, b: nat) {
    && a < b < |claims|
    && claims[a].Key() == claims[b].Key()
    && Passes(l, d, claims[a]) && Passes(l, d, claims[b])
  }

  predicate HasTwins(l: Ledger, m: Minute) {
    && !IsSabbath(m.timestampUtc)
    && exists a: nat, b: nat | a < b < |m.claims| :: Twins(l, CurrentDifficulty(m.epochMinute), m.claims, a, b)
  }

  /** Two paid claims, in order, are two submitted claims that pass, in the same order. */
  lemma {:induction false} PaidPair(l: Ledger, w: nat -> real, d: real, claims: seq<ProofClaim>, x: nat, y: nat)
    returns (a: nat, b: nat)
    requires x < y < |Eligible(l, w, d, claims)|
    ensures a < b < |claims| && Passes(l, d, claims[a]) && Passes(l, d, claims[b])
    ensures Eligible(l, w, d, claims)[x].claim == claims[a] && Eligible(l, w, d, claims)[y].claim == claims[b]
  {
    var n := |claims| - 1;
    var front := claims[..n];
    var e := Eligible(l, w, d, front);
    if y < |e| {
      a, b := PaidPair(l, w, d, front, x, y);
    } else {
      EligibleIff(l, w, d, front, e[x]);
      a :| 0 <= a < n && front[a] == e[x].claim;
      b := n;
    }
  }

  /** And the other way round. */
  lemma {:induction false} PassingPair(l: Ledger, w: nat -> real, d: real, claims: seq<ProofClaim>, a: nat, b: nat)
    returns (x: nat, y: nat)
    requires a < b < |claims| && Passes(l, d, claims[a]) && Passes(l, d, claims[b])
    ensures x < y < |Eligible(l, w, d, claims)|
    ensures Eligible(l, w, d, claims)[x].claim == claims[a] && Eligible(l, w, d, claims)[y].claim == claims[b]
  {
    var n := |claims| - 1;
    var front := claims[..n];
    var e := Eligible(l, w, d, front);
    if b < n {
      x, y := PassingPair(l, w, d, front, a, b);
    } else {
      var s := Score(l, w, claims[a]);
      EligibleIff(l, w, d, front, s);
      assert front[a] == claims[a];
      x :| 0 <= x < |e| && e[x] == s;
      y := |e|;
    }
  }

  lemma KeysDistinctIff(l: Ledger, w: nat -> real, d: real, claims: seq<ProofClaim>)
    ensures Distinct(Keys(Eligible(l, w, d, claims)))
            <==> forall a: nat, b: nat | a < b < |claims| :: !Twins(l, d, claims, a, b)
  {
    var keys := Keys(Eligible(l, w, d, claims));
    if x, y :| 0 <= x < y < |keys| && keys[x] == keys[y] {
      var a, b := PaidPair(l, w, d, claims, x, y);
      assert Twins(l, d, claims, a, b);
    } else {
      forall a: nat, b: nat | a < b < |claims| ensures !Twins(l, d, claims, a, b) {
        if Passes(l, d, claims[a]) && Passes(l, d, claims[b]) {
          var x, y := PassingPair(l, w, d, claims, a, b);
          assert keys[x] != keys[y];
        }
      }
    }
  }

  /** Within one minute, keys are paid at most once exactly when no two claims of the batch that
      get past the filter share a key. */
  lemma MinutePaysOnceIff(l: Ledger, w: nat -> real, m: Minute)
    requires PositiveWeight(w)
    ensures Distinct(Allocation(l, w, m).claimedUtxoKeys) <==> !HasTwins(l, m)
  {
    RecordKeys(l, w, m);
    if !IsSabbath(m.timestampUtc) {
      KeysDistinctIff(l, w, CurrentDifficulty(m.epochMinute), m.claims);
    }
  }

  lemma DistinctConcat<T>(s: seq<T>, t: seq<T>)
    ensures Distinct(s + t) <==> Distinct(s) && Distinct(t) && forall x :: x in s ==> x !in t
  {
    var st := s + t;
    if Distinct(st) {
      forall a, b | 0 <= a < b < |s| ensures s[a] != s[b] {
        assert st[a] != st[b];
      }
      forall a, b | 0 <= a < b < |t| ensures t[a] != t[b] {
        assert st[|s| + a] != st[|s| + b];
      }
      forall x | x in s ensures x !in t {
        var a :| 0 <= a < |s| && s[a] == x;
        forall b | 0 <= b < |t| ensures t[b] != x {
          assert st[a] != st[|s| + b];
        }
      }
    } else {
      var a, b :| 0 <= a < b < |st| && st[a] == st[b];
      assert st[a] == if a < |s| then s[a] else t[a - |s|];
      assert st[b] == if b < |s| then s[b] else t[b - |s|];
      assert a < |s| ==> s[a] in s;
    }
  }

  /** Some minute's batch has twins. */
  predicate SomeTwins(h: HashFn, w: nat -> real, run: seq<Minute>)
    requires PositiveWeight(w)
  {
    run != [] && (SomeTwins(h, w, run[..|run| - 1]) || HasTwins(After(h, w, run[..|run| - 1]), run[|run| - 1]))
  }

  /** Over a whole run every key is paid at most once exactly when no minute's batch has twins.
      Nothing is asked of claims repeated across minutes. */
  lemma {:induction false} RunPaysOnceIff(h: HashFn, w: nat -> real, run: seq<Minute>)
    requires PositiveWeight(w)
    ensures Distinct(PaidKeys(h, w, run)) <==> !SomeTwins(h, w, run)
  {
    if run != [] {
      var n := |run| - 1;
      var front := run[..n];
      RunPaysOnceIff(h, w, front);
      MinutePaysOnceIff(After(h, w, front), w, run[n]);
      forall k | k in PaidKeys(h, w, front) ensures k !in Keys(Paid(h, w, run, n)) {
        NotPaidTwice(h, w, run, n, k);
      }
      DistinctConcat(PaidKeys(h, w, front), Keys(Paid(h, w, run, n)));
      RecordKeys(After(h, w, front), w, run[n]);
    }
  }

  /** The batch filter alone is not enough: one eligible claim submitted twice in a minute is
      paid twice. */
  lemma SameClaimTwice(l: Ledger, w: nat -> real, epoch: U64, timestamp: U64, c: ProofClaim)
    requires PositiveWeight(w) && !IsSabbath(timestamp) && Passes(l, CurrentDifficulty(epoch), c)
    ensures Allocation(l, w, Minute(epoch, timestamp, [c, c])).claimedUtxoKeys == [c.Key(), c.Key()]
  {
    var claims := [c, c];
    assert claims[..1] == [c] && claims[..1][..0] == [];
    var s, d := Score(l, w, c), CurrentDifficulty(epoch);
    assert Eligible(l, w, d, [c]) == [s];
    assert Eligible(l, w, d, claims) == [s, s];
    RecordKeys(l, w, Minute(epoch, timestamp, claims));
  }

  // ----- novelty counters

  function PaidForEnv(e: seq<Scored>, env: Hash): nat {
    if e == [] then 0
    else PaidForEnv(e[..|e| - 1], env) + if e[|e| - 1].claim.envHash == env then 1 else 0
  }

  /** How many claims of this environment the run has paid. */
  function PaidCount(h: HashFn, w: nat -> real, run: seq<Minute>, env: Hash): nat
    requires PositiveWeight(w)
  {
    if run == [] then 0
    else PaidCount(h, w, run[..|run| - 1], env) + PaidForEnv(Paid(h, w, run, |run| - 1), env)
  }

  lemma {:induction false} CountAllCounts(counts: map<Hash, nat>, e: seq<Scored>, env: Hash)
    ensures CountOf(CountAll(counts, e), env) == CountOf(counts, env) + PaidForEnv(e, env)
  {
    if e != [] {
      CountAllCounts(counts, e[..|e| - 1], env);
    }
  }

  lemma {:induction false} CounterIsHistory(h: HashFn, w: nat -> real, run: seq<Minute>, env: Hash)
    requires PositiveWeight(w)
    ensures CountOf(After(h, w, run).envCounts, env) == PaidCount(h, w, run, env)
  {
    if run != [] {
      var front := run[..|run| - 1];
      CounterIsHistory(h, w, front, env);
      CountAllCounts(After(h, w, front).envCounts, Paid(h, w, run, |run| - 1), env);
    }
  }

  lemma {:induction false} PaidCountGrows(h: HashFn, w: nat -> real, run: seq<Minute>, i: nat, env: Hash)
    requires PositiveWeight(w) && i <= |run|
    ensures PaidCount(h, w, run[..i], env) <= PaidCount(h, w, run, env)
  {
    if i < |run| {
      assert run[..|run| - 1][..i] == run[..i];
      PaidCountGrows(h, w, run[..|run| - 1], i, env);
    } else {
      assert run[..i] == run;
    }
  }

  lemma WorkersOfRecord(l: Ledger, w: nat -> real, m: Minute)
    requires PositiveWeight(w)
    ensures Positive(PaidIn(l, w, m))
    ensures Allocation(l, w, m).workers == if PaidIn(l, w, m) == [] then [] else Workers(PaidIn(l, w, m))
  {
    EligiblePositive(l, w, m.epochMinute, m.claims);
  }

  lemma PaidClaim(l: Ledger, w: nat -> real, m: Minute, k: nat)
    requires k < |PaidIn(l, w, m)|
    ensures var s := PaidIn(l, w, m)[k]; s.claim in m.claims && s == Score(l, w, s.claim)
  {
    EligibleIff(l, w, CurrentDifficulty(m.epochMinute), m.claims, PaidIn(l, w, m)[k]);
  }

  lemma WorkerAt(l: Ledger, w: nat -> real, m: Minute, k: nat)
    requires PositiveWeight(w) && k < |Allocation(l, w, m).workers|
    ensures k < |PaidIn(l, w, m)|
    ensures var s, a := PaidIn(l, w, m)[k], Allocation(l, w, m).workers[k];
            && s.claim in m.claims && s == Score(l, w, s.claim)
            && a.workerDid == s.claim.workerDid && a.proofId == s.claim.proofId && a.weightedScore == s.weighted
  {
    WorkersOfRecord(l, w, m);
    PaidClaim(l, w, m, k);
  }

  /** Each recorded score is the f1 score times the weight of how often the environment was paid
      in all earlier minutes; claims of the same batch do not count against each other. */
  lemma RecordedScore(h: HashFn, w: nat -> real, run: seq<Minute>, i: nat, k: nat)
    requires PositiveWeight(w) && i < |run| && k < |Record(h, w, run, i).workers|
    ensures k < |Paid(h, w, run, i)|
    ensures var c := Paid(h, w, run, i)[k].claim;
            && c in run[i].claims
            && Record(h, w, run, i).workers[k].workerDid == c.workerDid
            && Record(h, w, run, i).workers[k].weightedScore
               == Weighted(c.f1Score, w(PaidCount(h, w, run[..i], c.envHash)))
  {
    WorkerAt(After(h, w, run[..i]), w, run[i], k);
    CounterIsHistory(h, w, run[..i], Paid(h, w, run, i)[k].claim.envHash);
  }

  lemma SquareOfProduct(f1: real, x: real, n: real)
    requires x * x * n == 1.0
    ensures (f1 * x) * (f1 * x) * n == f1 * f1
  {
    assert (f1 * x) * (f1 * x) * n == f1 * f1 * (x * x * n);
  }

  /** score is f1 over the square root of n, or f1 itself while n is 0. */
  predicate IsDecayed(score: real, f1: real, n: nat) {
    score > 0.0 && if n == 0 then score == f1 else score * score * n as real == f1 * f1
  }

  lemma WeightedDecays(w: nat -> real, f1: real, n: nat, score: real)
    requires IsNoveltyWeight(w) && f1 > 0.0 && score == Weighted(f1, w(n))
    ensures IsDecayed(score, f1, n)
  {
    if n > 0 {
      SquareOfProduct(f1, w(n), n as real);
    }
  }

  lemma PaidScorePositive(l: Ledger, w: nat -> real, m: Minute, k: nat)
    requires k < |PaidIn(l, w, m)|
    ensures PaidIn(l, w, m)[k].claim.f1Score > 0.0
  {
    EligibleIff(l, w, CurrentDifficulty(m.epochMinute), m.claims, PaidIn(l, w, m)[k]);
  }

  /** The recorded score is the f1 score over the square root of how often the environment was paid in earlier
      minutes, and the f1 score itself while it was not. */
  lemma RecordedDecay(h: HashFn, w: nat -> real, run: seq<Minute>, i: nat, k: nat, c: ProofClaim, n: nat,
                      score: real)
    requires IsNoveltyWeight(w) && PositiveWeight(w) && i < |run| && k < |Record(h, w, run, i).workers|
    requires k < |Paid(h, w, run, i)| && c == Paid(h, w, run, i)[k].claim
    requires n == PaidCount(h, w, run[..i], c.envHash) && score == Record(h, w, run, i).workers[k].weightedScore
    ensures IsDecayed(score, c.f1Score, n)
  {
    RecordedScore(h, w, run, i, k);
    PaidScorePositive(After(h, w, run[..i]), w, run[i], k);
    WeightedDecays(w, c.f1Score, n, score);
  }

  lemma UnitRoot(x: real, n: nat)
    requires x > 0.0 && n == 1 && x * x * n as real == 1.0
    ensures x == 1.0
  {
    assert x * x == 1.0;
    assert (x - 1.0) * (x + 1.0) == 0.0;
  }

  lemma ScaledSquares(x: real, y: real, m: nat, n: nat)
    requires 0.0 < x < y && 0 < m <= n
    ensures x * x * m as real < y * y * n as real
  {
    assert x * x < x * y < y * y;
    assert x * x * m as real < y * y * m as real;
    assert y * y * m as real <= y * y * n as real;
  }

  lemma RootsOrdered(x: real, y: real, m: nat, n: nat)
    requires x > 0.0 && y > 0.0 && 0 < m <= n
    requires x * x * m as real == 1.0 && y * y * n as real == 1.0
    ensures y <= x
  {
    if x < y {
      ScaledSquares(x, y, m, n);
    }
  }

  /** 1/sqrt(n) falls as n grows, and the first two submissions both weigh 1. */
  lemma WeightFalls(w: nat -> real, m: nat, n: nat)
    requires IsNoveltyWeight(w) && m <= n
    ensures 0.0 < w(n) <= w(m) <= 1.0
    ensures w(0) == w(1) == 1.0
  {
    UnitRoot(w(1), 1);
    if m > 0 {
      RootsOrdered(w(m), w(n), m, n);
      RootsOrdered(w(1), w(m), 1, m);
    } else if n > 0 {
      RootsOrdered(w(1), w(n), 1, n);
    }
  }

  lemma ScaleMore(square: real, m: real, n: real)
    requires square > 0.0 && m < n
    ensures square * m < square * n
  {
  }

  lemma RootsDiffer(x: real, y: real, m: nat, n: nat)
    requires x > 0.0 && y > 0.0 && 0 < m < n
    requires x * x * m as real == 1.0 && y * y * n as real == 1.0
    ensures x != y
  {
    ScaleMore(x * x, m as real, n as real);
  }

  /** Exactly when a repeat is penalised: from the second earlier payment on. And every further one
      lowers the weight again. */
  lemma PenalisedIff(w: nat -> real, m: nat, n: nat)
    requires IsNoveltyWeight(w) && 0 < m
    ensures w(n) < 1.0 <==> n > 1
    ensures w(n) < w(m) <==> m < n
  {
    WeightFalls(w, 1, n + 1);
    if n > 1 {
      RootsDiffer(w(1), w(n), 1, n);
    }
    if m < n {
      WeightFalls(w, m, n);
      RootsDiffer(w(m), w(n), m, n);
    } else {
      WeightFalls(w, n, m);
    }
    WeightFalls(w, n, n);
  }

  lemma SameWeightIff(w: nat -> real, a: nat, j: nat)
    requires IsNoveltyWeight(w)
    ensures w(a + j) <= w(a)
    ensures w(a + j) == w(a) <==> j == 0 || (a == 0 && j == 1)
  {
    WeightFalls(w, a, a + j);
    if a > 0 {
      PenalisedIff(w, a, a + j);
    } else {
      PenalisedIff(w, 1, j);
    }
  }

  lemma WeightedOrder(f1: real, x: real, y: real)
    requires f1 > 0.0 && x <= y
    ensures Weighted(f1, x) <= Weighted(f1, y)
    ensures Weighted(f1, x) == Weighted(f1, y) <==> x == y
  {
    if x < y {
      assert f1 * (y - x) > 0.0;
    }
  }

  /** What a batch's claims not counting against each other is worth to one score. */
  lemma DecayGap(w: nat -> real, f1: real, a: nat, j: nat)
    requires IsNoveltyWeight(w) && f1 > 0.0
    ensures Weighted(f1, w(a + j)) <= Weighted(f1, w(a))
    ensures Weighted(f1, w(a)) == Weighted(f1, w(a + j)) <==> j == 0 || (a == 0 && j == 1)
  {
    SameWeightIff(w, a, j);
    WeightedOrder(f1, w(a + j), w(a));
  }

  /** What the missing decay within a batch is worth. Let the environment of a paid claim have been paid a
      times in earlier minutes and j times earlier in the same batch. Its recorded score is at least the one
      at the weight of all a + j, and equals it exactly when j is 0 or the claim is the second of all. */
  lemma DecayedScoreIff(h: HashFn, w: nat -> real, run: seq<Minute>, i: nat, k: nat, c: ProofClaim, a: nat, j: nat)
    requires IsNoveltyWeight(w) && PositiveWeight(w) && i < |run| && k < |Record(h, w, run, i).workers|
    requires k < |Paid(h, w, run, i)| && c == Paid(h, w, run, i)[k].claim
    requires a == PaidCount(h, w, run[..i], c.envHash) && j == PaidForEnv(Paid(h, w, run, i)[..k], c.envHash)
    ensures Weighted(c.f1Score, w(a + j)) <= Record(h, w, run, i).workers[k].weightedScore
    ensures Record(h, w, run, i).workers[k].weightedScore == Weighted(c.f1Score, w(a + j))
            <==> j == 0 || (a == 0 && j == 1)
  {
    RecordedScore(h, w, run, i, k);
    PaidScorePositive(After(h, w, run[..i]), w, run[i], k);
    DecayGap(w, c.f1Score, a, j);
  }

  /** An environment's weight never rises during a run. */
  lemma NoveltyNeverRises(h: HashFn, w: nat -> real, run: seq<Minute>, i: nat, env: Hash)
    requires IsNoveltyWeight(w) && PositiveWeight(w) && i <= |run|
    ensures w(CountOf(After(h, w, run).envCounts, env)) <= w(CountOf(After(h, w, run[..i]).envCounts, env)) <= 1.0
  {
    CounterIsHistory(h, w, run, env);
    CounterIsHistory(h, w, run[..i], env);
    PaidCountGrows(h, w, run, i, env);
    WeightFalls(w, PaidCount(h, w, run[..i], env), PaidCount(h, w, run, env));
  }

  /** Difficulty never falls: a claim too weak for one minute is too weak for every later one. */
  lemma DifficultyRejectsForever(l: Ledger, c: ProofClaim, early: nat, late: nat)
    requires early <= late && c.f1Score < CurrentDifficulty(early)
    ensures !Passes(l, CurrentDifficulty(late), c)
    ensures GENESIS_DIFFICULTY <= CurrentDifficulty(early) <= CurrentDifficulty(late) <= MAX_DIFFICULTY
  {
    assert early / DIFFICULTY_EPOCH_BLOCKS <= late / DIFFICULTY_EPOCH_BLOCKS;
  }

  const LAST_STEP: nat := 409_248

  lemma NextEpoch(e: nat)
    ensures (e + 2_016) / 2_016 == e / 2_016 + 1
    ensures e / 2_016 * 2_016 <= e < e / 2_016 * 2_016 + 2_016
    ensures e / 2_016 < 203 <==> e < LAST_STEP
  {
  }

  /** The schedule in numbers: 0.777 for the first 2,016 minutes, one thousandth more with every further 2,016,
      constant in between, and 0.98 from minute 409,248 on. */
  lemma DifficultySchedule(e: nat, f: nat)
    ensures e < 2_016 ==> CurrentDifficulty(e) == 0.777
    ensures CurrentDifficulty(e) + 0.001 <= 0.98 ==> CurrentDifficulty(e + 2_016) == CurrentDifficulty(e) + 0.001
    ensures e / 2_016 == f / 2_016 ==> CurrentDifficulty(e) == CurrentDifficulty(f)
    ensures CurrentDifficulty(e) == 0.98 <==> e >= LAST_STEP
  {
    NextEpoch(e);
  }

  /** A score that the schedule asks for in minute e. */
  predicate HardEnough(e: nat, f1: real) {
    f1 >= 0.98 || f1 * 1_000.0 >= (777 + e / 2_016) as real
  }

  lemma HardEnoughIff(e: nat, f1: real)
    ensures f1 >= CurrentDifficulty(e) <==> HardEnough(e, f1)
  {
  }

  /** The two claims are for one UTXO. */
  predicate SameUtxo(c: ProofClaim, c': ProofClaim) {
    c.veilId == c'.veilId && c.epochMinute == c'.epochMinute && c.trajectoryHash == c'.trajectoryHash
  }

  /** The claim is paid in minute i of the run. */
  ghost predicate IsPaid(h: HashFn, w: nat -> real, run: seq<Minute>, i: nat, c: ProofClaim)
    requires PositiveWeight(w) && i < |run|
  {
    exists s :: s in Paid(h, w, run, i) && s.claim == c
  }

  /** Some claim for the same UTXO is paid in a minute before i. */
  ghost predicate PaidBefore(h: HashFn, w: nat -> real, run: seq<Minute>, i: nat, c: ProofClaim)
    requires PositiveWeight(w) && i <= |run|
  {
    exists j: nat, c' | j < i :: IsPaid(h, w, run, j, c') && SameUtxo(c, c')
  }

  lemma ClaimedWasPaid(h: HashFn, w: nat -> real, run: seq<Minute>, i: nat, c: ProofClaim)
    requires PositiveWeight(w) && i <= |run| && c.Key() in After(h, w, run[..i]).claimed
    ensures PaidBefore(h, w, run, i, c)
  {
    var j, s := EntryNamesPayment(h, w, run[..i], c.Key());
    assert run[..i][..j] == run[..j];
    assert IsPaid(h, w, run, j, s.claim) && SameUtxo(c, s.claim);
  }

  lemma PaidIsPaidAt(h: HashFn, w: nat -> real, run: seq<Minute>, j: nat, c: ProofClaim)
    requires PositiveWeight(w) && j < |run| && IsPaid(h, w, run, j, c)
    ensures PaidAt(h, w, run, j, c.Key())
  {
    var e := Paid(h, w, run, j);
    var s :| s in e && s.claim == c;
    var x :| 0 <= x < |e| && e[x] == s;
    assert Keys(e)[x] == c.Key();
  }

  lemma PaidIsClaimed(h: HashFn, w: nat -> real, run: seq<Minute>, i: nat, j: nat, c: ProofClaim)
    requires PositiveWeight(w) && j < i <= |run| && IsPaid(h, w, run, j, c)
    ensures c.Key() in After(h, w, run[..i]).claimed
  {
    PaidIsPaidAt(h, w, run, j, c);
    PaidAtIsPaid(h, w, run, j, c.Key());
    assert run[..i][..j + 1] == run[..j + 1];
    PaidKeysGrow(h, w, run[..i], j + 1, c.Key());
    ClaimedIsPaid(h, w, run[..i], c.Key());
  }

  lemma PaidBeforeIff(h: HashFn, w: nat -> real, run: seq<Minute>, i: nat, c: ProofClaim)
    requires PositiveWeight(w) && i <= |run|
    ensures c.Key() in After(h, w, run[..i]).claimed <==> PaidBefore(h, w, run, i, c)
  {
    if c.Key() in After(h, w, run[..i]).claimed {
      ClaimedWasPaid(h, w, run, i, c);
    }
    if PaidBefore(h, w, run, i, c) {
      var j: nat, c' :| j < i && IsPaid(h, w, run, j, c') && SameUtxo(c, c');
      assert c'.Key() == c.Key();
      PaidIsClaimed(h, w, run, i, j, c');
    }
  }

  /** Which claims a minute pays, from any run's beginning: those of its batch, outside the Sabbath, whose score
      the schedule accepts and whose UTXO was not paid in an earlier minute. */
  lemma MinutePaysIff(h: HashFn, w: nat -> real, run: seq<Minute>, i: nat, c: ProofClaim)
    requires PositiveWeight(w) && i < |run|
    ensures IsPaid(h, w, run, i, c)
            <==> && c in run[i].claims && !IsSabbath(run[i].timestampUtc)
                 && HardEnough(run[i].epochMinute, c.f1Score) && !PaidBefore(h, w, run, i, c)
  {
    var l, d := After(h, w, run[..i]), CurrentDifficulty(run[i].epochMinute);
    EligibleIff(l, w, d, run[i].claims, Score(l, w, c));
    HardEnoughIff(run[i].epochMinute, c.f1Score);
    PaidBeforeIff(h, w, run, i, c);
    ClaimedIsPaid(h, w, run[..i], c.Key());
    if IsPaid(h, w, run, i, c) {
      var s :| s in Paid(h, w, run, i) && s.claim == c;
      EligibleIff(l, w, d, run[i].claims, s);
    }
  }

  /** The score that opens the ledger closes after its first 2,016 minutes. */
  lemma GenesisScoreExpires(h: HashFn, w: nat -> real, run: seq<Minute>, i: nat, c: ProofClaim)
    requires PositiveWeight(w) && i < |run| && run[i].epochMinute >= 2_016 && c.f1Score < 0.778
    ensures !IsPaid(h, w, run, i, c) && CurrentDifficulty(2_016) == 0.778
  {
    MinutePaysIff(h, w, run, i, c);
    assert run[i].epochMinute / 2_016 >= 1;
  }

  // ----- amounts

  function Amounts(ws: seq<WorkerAllocation>): (r: seq<nat>)
    ensures |r| == |ws|
  {
    seq(|ws|, i requires 0 <= i < |ws| => ws[i].microAse)
  }

  /** What one call hands to workers and, on the fallback, to the inheritance wallets. */
  function Reaching(a: MinuteAllocation): nat {
    Sum(Amounts(a.workers)) + INHERITANCE_WALLET_COUNT * a.microAsePerWallet
  }

  /** A call pays out its whole million to workers, or all but 640 to the wallets, or nothing
      on the Sabbath; and what it records as its total is a million or nothing. */
  lemma MinuteConserves(l: Ledger, w: nat -> real, m: Minute)
    requires PositiveWeight(w)
    ensures var a := Allocation(l, w, m);
            && a.totalMicroAse == (if IsSabbath(m.timestampUtc) then 0 else MICRO_ASE_PER_MINUTE)
            && Reaching(a) == a.totalMicroAse - (if a.inheritanceFallback then 640 else 0)
            && (a.inheritanceFallback <==> !IsSabbath(m.timestampUtc) && PaidIn(l, w, m) == [])
  {
    var a, e := Allocation(l, w, m), PaidIn(l, w, m);
    if !IsSabbath(m.timestampUtc) {
      EligiblePositive(l, w, m.epochMinute, m.claims);
    }
    if e == [] {
      assert Amounts(a.workers) == [];
    } else {
      assert Amounts(a.workers) == Shares(e);
    }
  }

  /** All recorded scores of a minute. */
  function ScoreSum(ws: seq<WorkerAllocation>): real {
    if ws == [] then 0.0 else ScoreSum(ws[..|ws| - 1]) + ws[|ws| - 1].weightedScore
  }

  lemma {:induction false} ScoreSumIs(ws: seq<WorkerAllocation>, e: seq<Scored>)
    requires |ws| == |e| && forall i :: 0 <= i < |e| ==> ws[i].weightedScore == e[i].weighted
    ensures ScoreSum(ws) == TotalWeight(e)
  {
    if e != [] {
      ScoreSumIs(ws[..|ws| - 1], e[..|e| - 1]);
    }
  }

  /** The amount is the part of a million that the score is of the total, rounded down. */
  predicate IsShare(amount: nat, score: real, total: real) {
    amount as real * total <= score * 1_000_000.0 < (amount + 1) as real * total
  }

  lemma SharePart(amount: nat, score: real, total: real)
    requires total > 0.0 && amount as real <= ExactShare(score, total) < amount as real + 1.0
    ensures IsShare(amount, score, total)
  {
    var part := score / total;
    assert part * total == score;
    assert ExactShare(score, total) * total == score * 1_000_000.0;
    assert amount as real * total <= ExactShare(score, total) * total;
    ScaleMore(total, ExactShare(score, total), (amount + 1) as real);
  }

  /** Read off the record: the amounts make up the million, each worker but the last gets its part of it rounded
      down, and the last what is left. */
  lemma RecordedShares(l: Ledger, w: nat -> real, m: Minute, k: nat)
    requires PositiveWeight(w) && k < |Allocation(l, w, m).workers|
    ensures var ws := Allocation(l, w, m).workers;
            && Sum(Amounts(ws)) == 1_000_000
            && (k < |ws| - 1 ==> IsShare(ws[k].microAse, ws[k].weightedScore, ScoreSum(ws)))
  {
    var ws, e := Allocation(l, w, m).workers, PaidIn(l, w, m);
    WorkersOfRecord(l, w, m);
    ScoreSumIs(ws, e);
    assert Amounts(ws) == Shares(e);
    if k < |ws| - 1 {
      OtherShares(e, k);
      SharePart(ws[k].microAse, ws[k].weightedScore, TotalWeight(e));
    }
  }

  /** A record names its minute and its time, and the difficulty of the schedule. */
  lemma RecordHeader(l: Ledger, w: nat -> real, m: Minute, f1: real)
    requires PositiveWeight(w)
    ensures var a := Allocation(l, w, m);
            && a.epochMinute == m.epochMinute && a.timestampUtc == m.timestampUtc
            && (f1 >= a.difficultyUsed <==> HardEnough(m.epochMinute, f1))
  {
    HardEnoughIff(m.epochMinute, f1);
  }

  function TotalReaching(h: HashFn, w: nat -> real, run: seq<Minute>): nat
    requires PositiveWeight(w)
  {
    if run == [] then 0
    else TotalReaching(h, w, run[..|run| - 1]) + Reaching(Record(h, w, run, |run| - 1))
  }

  function WorkingCalls(run: seq<Minute>): nat {
    if run == [] then 0
    else WorkingCalls(run[..|run| - 1]) + if IsSabbath(run[|run| - 1].timestampUtc) then 0 else 1
  }

  function FallbackCalls(h: HashFn, w: nat -> real, run: seq<Minute>): nat
    requires PositiveWeight(w)
  {
    if run == [] then 0
    else FallbackCalls(h, w, run[..|run| - 1]) + if Record(h, w, run, |run| - 1).inheritanceFallback then 1 else 0
  }

  lemma {:induction false} RunConserves(h: HashFn, w: nat -> real, run: seq<Minute>)
    requires PositiveWeight(w)
    ensures TotalReaching(h, w, run) + 640 * FallbackCalls(h, w, run) == MICRO_ASE_PER_MINUTE * WorkingCalls(run)
  {
    if run != [] {
      var n := |run| - 1;
      RunConserves(h, w, run[..n]);
      MinuteConserves(After(h, w, run[..n]), w, run[n]);
    }
  }
}
