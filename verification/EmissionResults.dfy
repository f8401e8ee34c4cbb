/** One payment per simulation result. A result is a veil and a trajectory; the key under which it is
    claimed also carries an epoch minute that the claim itself chooses. */
module EmissionResults {
  import opened Wire
  import opened Emission
  import opened EmissionRuns
  import opened Sequences

  datatype SimResult = SimResult(veilId: nat, trajectoryHash: Hash)

  function ResultOf(k: UtxoKey): SimResult {
    SimResult(k.veilId, k.trajectoryHash)
  }

  function ResultsOf(keys: seq<UtxoKey>): (r: seq<SimResult>)
    ensures |r| == |keys|
  {
    seq(|keys|, i requires 0 <= i < |keys| => ResultOf(keys[i]))
  }

  /** Two passing claims of one batch are about one result. */
  predicate ResultTwins(l: Ledger, d: real, claims: seq<ProofClaim>, a: nat, b: nat) {
    && a < b < |claims|
    && ResultOf(claims[a].Key()) == ResultOf(claims[b].Key())
    && Passes(l, d, claims[a]) && Passes(l, d, claims[b])
  }

  /** A passing claim is about a result that is already claimed, under another key. */
  predicate Reclaims(l: Ledger, d: real, claims: seq<ProofClaim>, a: nat, k: UtxoKey) {
    a < |claims| && Passes(l, d, claims[a]) && k in l.claimed && ResultOf(claims[a].Key()) == ResultOf(k)
  }

  predicate BatchRepeats(l: Ledger, d: real, claims: seq<ProofClaim>) {
    exists a: nat, b: nat | a < b < |claims| :: ResultTwins(l, d, claims, a, b)
  }

  predicate LedgerRepeats(l: Ledger, d: real, claims: seq<ProofClaim>) {
    exists a: nat, k | a < |claims| && k in l.claimed :: Reclaims(l, d, claims, a, k)
  }

  predicate HasRepeat(l: Ledger, m: Minute) {
    var d := CurrentDifficulty(m.epochMinute);
    !IsSabbath(m.timestampUtc) && (BatchRepeats(l, d, m.claims) || LedgerRepeats(l, d, m.claims))
  }

  /** Some minute's batch repeats a result, its own or one claimed before. */
  predicate SomeRepeat(h: HashFn, w: nat -> real, run: seq<Minute>)
    requires PositiveWeight(w)
  {
    run != [] && (SomeRepeat(h, w, run[..|run| - 1]) || HasRepeat(After(h, w, run[..|run| - 1]), run[|run| - 1]))
  }

  lemma BatchDistinctIff(l: Ledger, w: nat -> real, d: real, claims: seq<ProofClaim>)
    ensures Distinct(ResultsOf(Keys(Eligible(l, w, d, claims)))) <==> !BatchRepeats(l, d, claims)
  {
    var results := ResultsOf(Keys(Eligible(l, w, d, claims)));
    if x, y :| 0 <= x < y < |results| && results[x] == results[y] {
      var a, b := PaidPair(l, w, d, claims, x, y);
      assert ResultTwins(l, d, claims, a, b);
    }
    if a: nat, b: nat :| a < b < |claims| && ResultTwins(l, d, claims, a, b) {
      var x, y := PassingPair(l, w, d, claims, a, b);
      assert results[x] == results[y];
    }
  }

  lemma ResultMember(keys: seq<UtxoKey>, r: SimResult) returns (k: UtxoKey)
    requires r in ResultsOf(keys)
    ensures k in keys && ResultOf(k) == r
  {
    var i :| 0 <= i < |keys| && ResultsOf(keys)[i] == r;
    k := keys[i];
  }

  lemma ResultListed(keys: seq<UtxoKey>, k: UtxoKey)
    requires k in keys
    ensures ResultOf(k) in ResultsOf(keys)
  {
    var i :| 0 <= i < |keys| && keys[i] == k;
    assert ResultsOf(keys)[i] == ResultOf(k);
  }

  lemma KeyOfPaid(l: Ledger, w: nat -> real, d: real, claims: seq<ProofClaim>, a: nat)
    requires a < |claims| && Passes(l, d, claims[a])
    ensures claims[a].Key() in Keys(Eligible(l, w, d, claims))
  {
    var s, e := Score(l, w, claims[a]), Eligible(l, w, d, claims);
    EligibleIff(l, w, d, claims, s);
    var x :| 0 <= x < |e| && e[x] == s;
    assert Keys(e)[x] == claims[a].Key();
  }

  predicate Disjoint(s: seq<SimResult>, t: seq<SimResult>) {
    forall r :: r in s ==> r !in t
  }

  /** The results paid now are new exactly when no passing claim is about one claimed before. */
  lemma NewIff(l: Ledger, w: nat -> real, d: real, claims: seq<ProofClaim>, paid: seq<UtxoKey>)
    requires forall k :: k in l.claimed <==> k in paid
    ensures Disjoint(ResultsOf(paid), ResultsOf(Keys(Eligible(l, w, d, claims)))) <==> !LedgerRepeats(l, d, claims)
  {
    var e := Eligible(l, w, d, claims);
    if r :| r in ResultsOf(paid) && r in ResultsOf(Keys(e)) {
      var k := ResultMember(paid, r);
      var k' := ResultMember(Keys(e), r);
      var s := KeysMember(e, k');
      EligibleIff(l, w, d, claims, s);
      var a :| 0 <= a < |claims| && claims[a] == s.claim;
      assert Reclaims(l, d, claims, a, k);
    }
    if a: nat, k :| a < |claims| && k in l.claimed && Reclaims(l, d, claims, a, k) {
      KeyOfPaid(l, w, d, claims, a);
      ResultListed(Keys(e), claims[a].Key());
      ResultListed(paid, k);
    }
  }

  /** One minute adds no repeated result exactly when its batch repeats none. */
  lemma MinuteRepeatsIff(l: Ledger, w: nat -> real, m: Minute, before: seq<UtxoKey>)
    requires forall k :: k in l.claimed <==> k in before
    ensures Distinct(ResultsOf(before + Keys(PaidIn(l, w, m)))) <==> Distinct(ResultsOf(before)) && !HasRepeat(l, m)
  {
    var now := Keys(PaidIn(l, w, m));
    assert ResultsOf(before + now) == ResultsOf(before) + ResultsOf(now);
    DistinctConcat(ResultsOf(before), ResultsOf(now));
    if !IsSabbath(m.timestampUtc) {
      var d := CurrentDifficulty(m.epochMinute);
      BatchDistinctIff(l, w, d, m.claims);
      NewIff(l, w, d, m.claims, before);
    }
  }

  lemma AllClaimedArePaid(h: HashFn, w: nat -> real, run: seq<Minute>)
    requires PositiveWeight(w)
    ensures forall k :: k in After(h, w, run).claimed <==> k in PaidKeys(h, w, run)
  {
    forall k ensures k in After(h, w, run).claimed <==> k in PaidKeys(h, w, run) {
      ClaimedIsPaid(h, w, run, k);
    }
  }

  /** Over any run every simulation result is paid at most once exactly when in no minute a passing claim
      shares its result with another passing claim of the batch or with a key claimed before. */
  lemma {:induction false} RunPaysResultsOnceIff(h: HashFn, w: nat -> real, run: seq<Minute>)
    requires PositiveWeight(w)
    ensures Distinct(ResultsOf(PaidKeys(h, w, run))) <==> !SomeRepeat(h, w, run)
  {
    if run != [] {
      var n := |run| - 1;
      RunPaysResultsOnceIff(h, w, run[..n]);
      AllClaimedArePaid(h, w, run[..n]);
      MinuteRepeatsIff(After(h, w, run[..n]), w, run[n], PaidKeys(h, w, run[..n]));
    }
  }

  // ----- what the filter by keys is worth

  predicate Submitted(run: seq<Minute>, c: ProofClaim) {
    exists i :: 0 <= i < |run| && c in run[i].claims
  }

  /** Claims about one result always carry one epoch minute. */
  ghost predicate OneMinutePerResult(run: seq<Minute>) {
    forall c, c' :: Submitted(run, c) && Submitted(run, c') && ResultOf(c.Key()) == ResultOf(c'.Key())
                    ==> c.epochMinute == c'.epochMinute
  }

  lemma PaidWasSubmitted(h: HashFn, w: nat -> real, run: seq<Minute>, k: UtxoKey) returns (c: ProofClaim)
    requires PositiveWeight(w) && k in PaidKeys(h, w, run)
    ensures Submitted(run, c) && c.Key() == k
  {
    ClaimedIsPaid(h, w, run, k);
    var i, s := EntryNamesPayment(h, w, run, k);
    var paid := Paid(h, w, run, i);
    var x :| 0 <= x < |paid| && paid[x] == s;
    PaidClaim(After(h, w, run[..i]), w, run[i], x);
    c := s.claim;
  }

  lemma SameResultSameKey(h: HashFn, w: nat -> real, run: seq<Minute>, k: UtxoKey, k': UtxoKey)
    requires PositiveWeight(w) && OneMinutePerResult(run)
    requires k in PaidKeys(h, w, run) && k' in PaidKeys(h, w, run) && ResultOf(k) == ResultOf(k')
    ensures k == k'
  {
    var c := PaidWasSubmitted(h, w, run, k);
    var c' := PaidWasSubmitted(h, w, run, k');
    assert c.epochMinute == c'.epochMinute;
  }

  /** While every result always comes with one epoch minute, one payment per key is one payment per
      result: then results are paid once exactly when no batch has two passing claims with one key. */
  lemma KeysCoverResults(h: HashFn, w: nat -> real, run: seq<Minute>)
    requires PositiveWeight(w) && OneMinutePerResult(run)
    ensures Distinct(ResultsOf(PaidKeys(h, w, run))) <==> !SomeTwins(h, w, run)
  {
    var keys := PaidKeys(h, w, run);
    var results := ResultsOf(keys);
    RunPaysOnceIff(h, w, run);
    if x, y :| 0 <= x < y < |keys| && results[x] == results[y] {
      SameResultSameKey(h, w, run, keys[x], keys[y]);
      assert !Distinct(keys);
    } else {
      forall x, y | 0 <= x < y < |keys| ensures keys[x] != keys[y] {
        assert results[x] != results[y];
      }
    }
  }

  lemma OneClaimMinute(l: Ledger, w: nat -> real, m: Minute, c: ProofClaim)
    requires m.claims == [c] && !IsSabbath(m.timestampUtc) && Passes(l, CurrentDifficulty(m.epochMinute), c)
    ensures Keys(PaidIn(l, w, m)) == [c.Key()] && !HasTwins(l, m)
  {
    assert [c][..0] == [];
    assert PaidIn(l, w, m) == [Score(l, w, c)];
  }

  lemma OneMoreMinute(h: HashFn, w: nat -> real, run: seq<Minute>, m: Minute)
    requires PositiveWeight(w)
    ensures PaidKeys(h, w, run + [m]) == PaidKeys(h, w, run) + Keys(PaidIn(After(h, w, run), w, m))
    ensures SomeTwins(h, w, run + [m]) <==> SomeTwins(h, w, run) || HasTwins(After(h, w, run), m)
  {
    assert (run + [m])[..|run|] == run;
  }

  /** A minute with one new claim that is hard enough. */
  lemma NewClaimPaid(h: HashFn, w: nat -> real, run: seq<Minute>, m: Minute, c: ProofClaim)
    requires PositiveWeight(w) && m.claims == [c] && !IsSabbath(m.timestampUtc)
    requires c.f1Score >= CurrentDifficulty(m.epochMinute) && c.Key() !in PaidKeys(h, w, run)
    ensures PaidKeys(h, w, run + [m]) == PaidKeys(h, w, run) + [c.Key()]
    ensures SomeTwins(h, w, run + [m]) <==> SomeTwins(h, w, run)
  {
    ClaimedIsPaid(h, w, run, c.Key());
    OneClaimMinute(After(h, w, run), w, m, c);
    OneMoreMinute(h, w, run, m);
  }

  lemma TwoAlike(keys: seq<UtxoKey>, k: UtxoKey, k': UtxoKey)
    requires ResultOf(k) == ResultOf(k')
    ensures !Distinct(ResultsOf(keys + [k] + [k']))
  {
    var n, all := |keys|, keys + [k] + [k'];
    assert all[n] == k && all[n + 1] == k';
    assert ResultsOf(all)[n] == ResultsOf(all)[n + 1];
  }

  /** The key does not stop a result from coming back. After any run, in any two working minutes whose
      difficulty it meets, a claim and the same claim with another epoch minute are both paid, unless they
      were before; and that without any batch with two claims of one key. */
  lemma SameResultPaidAgain(h: HashFn, w: nat -> real, run: seq<Minute>, m: Minute, m': Minute, c: ProofClaim,
                            other: U64)
    requires PositiveWeight(w) && other != c.epochMinute
    requires c.f1Score >= CurrentDifficulty(m.epochMinute) && c.f1Score >= CurrentDifficulty(m'.epochMinute)
    requires m.claims == [c] && m'.claims == [c.(epochMinute := other)]
    requires !IsSabbath(m.timestampUtc) && !IsSabbath(m'.timestampUtc)
    requires c.Key() !in PaidKeys(h, w, run) && c.(epochMinute := other).Key() !in PaidKeys(h, w, run)
    ensures var longer, c' := run + [m] + [m'], c.(epochMinute := other);
            && PaidKeys(h, w, longer) == PaidKeys(h, w, run) + [c.Key()] + [c'.Key()]
            && ResultOf(c.Key()) == ResultOf(c'.Key()) && !Distinct(ResultsOf(PaidKeys(h, w, longer)))
            && (SomeTwins(h, w, longer) <==> SomeTwins(h, w, run))
  {
    var c' := c.(epochMinute := other);
    NewClaimPaid(h, w, run, m, c);
    NewClaimPaid(h, w, run + [m], m', c');
    TwoAlike(PaidKeys(h, w, run), c.Key(), c'.Key());
  }

  /** From genesis nothing was paid before: the first two minutes of the epoch already show it. */
  lemma FirstResultPaidAgain(h: HashFn, w: nat -> real, c: ProofClaim, other: U64)
    requires PositiveWeight(w) && other != c.epochMinute && c.f1Score >= GENESIS_DIFFICULTY
    ensures var run := [] + [Minute(0, 0, [c])] + [Minute(1, 60, [c.(epochMinute := other)])];
            !SomeTwins(h, w, run) && !Distinct(ResultsOf(PaidKeys(h, w, run)))
  {
    SameResultPaidAgain(h, w, [], Minute(0, 0, [c]), Minute(1, 60, [c.(epochMinute := other)]), c, other);
  }
}
