/** Emission over runs of the allocator: how much a week emits, and how much one epoch minute. */
module EmissionCalendar {
  import opened Wire
  import opened Emission
  import opened EmissionRuns

  const MINUTES_PER_DAY: nat := 1_440
  const MINUTES_PER_WEEK: nat := 10_080

  /** Whether the m-th minute since the epoch falls on the Sabbath. */
  predicate SabbathMinute(m: nat) {
    (m / MINUTES_PER_DAY + 4) % 7 == 6
  }

  lemma SabbathOfTimestamp(t: nat)
    ensures IsSabbath(t) == SabbathMinute(t / 60)
  {
    assert t / 60 / MINUTES_PER_DAY == t / 86_400;
  }

  lemma SabbathReturns(m: nat)
    ensures SabbathMinute(m + MINUTES_PER_WEEK) == SabbathMinute(m)
  {
    assert (m + MINUTES_PER_WEEK) / MINUTES_PER_DAY == m / MINUTES_PER_DAY + 7;
  }

  /** Sabbath minutes among the first n. */
  function Sabbaths(n: nat): nat {
    if n == 0 then 0 else Sabbaths(n - 1) + if SabbathMinute(n - 1) then 1 else 0
  }

  /** The first week of the epoch: Thursday and Friday, the Sabbath, then the rest. */
  lemma {:induction false} FirstWeek(n: nat)
    requires n <= MINUTES_PER_WEEK
    ensures Sabbaths(n) == if n <= 2_880 then 0 else if n <= 4_320 then n - 2_880 else 1_440
  {
    if n > 0 {
      FirstWeek(n - 1);
      var day := (n - 1) / MINUTES_PER_DAY;
      assert day < 7;
      assert SabbathMinute(n - 1) <==> day == 2;
    }
  }

  lemma {:induction false} EveryWeek(k: nat)
    ensures Sabbaths(k + MINUTES_PER_WEEK) == Sabbaths(k) + MINUTES_PER_DAY
  {
    if k == 0 {
      FirstWeek(MINUTES_PER_WEEK);
    } else {
      EveryWeek(k - 1);
      SabbathReturns(k - 1);
    }
  }

  /** Allocations are made every 60 seconds from start. */
  predicate EveryMinute(run: seq<Minute>, start: nat) {
    forall i :: 0 <= i < |run| ==> run[i].timestampUtc == start + 60 * i
  }

  lemma {:induction false} WorkingCallsCount(run: seq<Minute>, start: nat)
    requires EveryMinute(run, start)
    ensures WorkingCalls(run) + Sabbaths(start / 60 + |run|) == |run| + Sabbaths(start / 60)
  {
    if run != [] {
      var n := |run| - 1;
      WorkingCallsCount(run[..n], start);
      SabbathOfTimestamp(run[n].timestampUtc);
      assert run[n].timestampUtc / 60 == start / 60 + n;
    }
  }

  /** The totals recorded by the minutes of a run. */
  function Emitted(h: HashFn, w: nat -> real, run: seq<Minute>): nat
    requires PositiveWeight(w)
  {
    if run == [] then 0 else Emitted(h, w, run[..|run| - 1]) + Record(h, w, run, |run| - 1).totalMicroAse
  }

  lemma {:induction false} EmittedIsWorkingCalls(h: HashFn, w: nat -> real, run: seq<Minute>)
    requires PositiveWeight(w)
    ensures Emitted(h, w, run) == MICRO_ASE_PER_MINUTE * WorkingCalls(run)
  {
    if run != [] {
      var n := |run| - 1;
      EmittedIsWorkingCalls(h, w, run[..n]);
      MinuteConserves(After(h, w, run[..n]), w, run[n]);
    }
  }

  lemma WeekWorks(run: seq<Minute>, start: nat, k: nat)
    requires EveryMinute(run, start) && k + MINUTES_PER_WEEK <= |run|
    ensures WorkingCalls(run[..k + MINUTES_PER_WEEK]) == WorkingCalls(run[..k]) + 8_640
  {
    WorkingCallsCount(run[..k], start);
    WorkingCallsCount(run[..k + MINUTES_PER_WEEK], start);
    EveryWeek(start / 60 + k);
  }

  /** Any 10,080 consecutive minutes emit six days' worth, wherever they start. */
  lemma WeekEmits(h: HashFn, w: nat -> real, run: seq<Minute>, start: nat, k: nat)
    requires PositiveWeight(w) && EveryMinute(run, start) && k + MINUTES_PER_WEEK <= |run|
    ensures Emitted(h, w, run[..k + MINUTES_PER_WEEK])
         == Emitted(h, w, run[..k]) + 8_640 * MICRO_ASE_PER_MINUTE
  {
    EmittedIsWorkingCalls(h, w, run[..k]);
    EmittedIsWorkingCalls(h, w, run[..k + MINUTES_PER_WEEK]);
    WeekWorks(run, start, k);
  }

  // ----- the ceiling of one epoch minute

  predicate Allocates(m: Minute, e: U64) {
    m.epochMinute == e && !IsSabbath(m.timestampUtc)
  }

  /** The non-Sabbath calls of a run for one epoch minute. */
  function CallsFor(run: seq<Minute>, e: U64): nat {
    if run == [] then 0
    else CallsFor(run[..|run| - 1], e) + if Allocates(run[|run| - 1], e) then 1 else 0
  }

  /** The totals recorded for one epoch minute. */
  function EmittedFor(h: HashFn, w: nat -> real, run: seq<Minute>, e: U64): nat
    requires PositiveWeight(w)
  {
    if run == [] then 0
    else
      EmittedFor(h, w, run[..|run| - 1], e)
      + if run[|run| - 1].epochMinute == e then Record(h, w, run, |run| - 1).totalMicroAse else 0
  }

  lemma {:induction false} EmittedPerCall(h: HashFn, w: nat -> real, run: seq<Minute>, e: U64)
    requires PositiveWeight(w)
    ensures EmittedFor(h, w, run, e) == MICRO_ASE_PER_MINUTE * CallsFor(run, e)
  {
    if run != [] {
      var n := |run| - 1;
      EmittedPerCall(h, w, run[..n], e);
      MinuteConserves(After(h, w, run[..n]), w, run[n]);
    }
  }

  /** Two calls that both allocate the epoch minute e. */
  predicate BothAllocate(run: seq<Minute>, e: U64, i: nat, j: nat) {
    i < j < |run| && Allocates(run[i], e) && Allocates(run[j], e)
  }

  lemma {:induction false} FewCallsIff(run: seq<Minute>, e: U64)
    ensures CallsFor(run, e) == 0 <==> forall i :: 0 <= i < |run| ==> !Allocates(run[i], e)
    ensures CallsFor(run, e) <= 1 <==> forall i: nat, j: nat | i < j < |run| :: !BothAllocate(run, e, i, j)
  {
    if run != [] {
      var n := |run| - 1;
      FewCallsIff(run[..n], e);
      if i: nat, j: nat :| i < j < |run| && BothAllocate(run, e, i, j) {
        assert j < n ==> BothAllocate(run[..n], e, i, j);
        assert run[..n][i] == run[i];
      } else {
        forall i: nat, j: nat | i < j < n ensures !BothAllocate(run[..n], e, i, j) {
          assert !BothAllocate(run, e, i, j);
        }
        forall i | 0 <= i < n ensures !(Allocates(run[..n][i], e) && Allocates(run[n], e)) {
          assert !BothAllocate(run, e, i, n);
        }
      }
    }
  }

  /** Every epoch minute emits at most its million. */
  ghost predicate CeilingKept(h: HashFn, w: nat -> real, run: seq<Minute>)
    requires PositiveWeight(w)
  {
    forall e: U64 :: EmittedFor(h, w, run, e) <= MICRO_ASE_PER_MINUTE
  }

  /** Two calls outside the Sabbath for one epoch minute. */
  predicate SameMinute(m: Minute, m': Minute) {
    m.epochMinute == m'.epochMinute && !IsSabbath(m.timestampUtc) && !IsSabbath(m'.timestampUtc)
  }

  predicate NoMinuteTwice(run: seq<Minute>) {
    forall i, j :: 0 <= i < j < |run| ==> !SameMinute(run[i], run[j])
  }

  /** No call looks back at which minutes were allocated before. So the ceiling of one million for each epoch
      minute is kept exactly when the caller allocates none of them twice. */
  lemma CeilingKeptIff(h: HashFn, w: nat -> real, run: seq<Minute>)
    requires PositiveWeight(w)
    ensures CeilingKept(h, w, run) <==> NoMinuteTwice(run)
  {
    if NoMinuteTwice(run) {
      forall e: U64 ensures EmittedFor(h, w, run, e) <= MICRO_ASE_PER_MINUTE {
        EmittedPerCall(h, w, run, e);
        FewCallsIff(run, e);
        forall i: nat, j: nat | i < j < |run| ensures !BothAllocate(run, e, i, j) {
          assert !SameMinute(run[i], run[j]);
        }
      }
    } else {
      var i, j :| 0 <= i < j < |run| && SameMinute(run[i], run[j]);
      var e := run[i].epochMinute;
      EmittedPerCall(h, w, run, e);
      FewCallsIff(run, e);
      assert BothAllocate(run, e, i, j);
    }
  }

  /** Any epoch minute allocated again after any run emits another million. */
  lemma AllocatedAgain(h: HashFn, w: nat -> real, run: seq<Minute>, m: Minute)
    requires PositiveWeight(w) && !IsSabbath(m.timestampUtc)
    ensures EmittedFor(h, w, run + [m], m.epochMinute)
         == EmittedFor(h, w, run, m.epochMinute) + MICRO_ASE_PER_MINUTE
  {
    assert (run + [m])[..|run|] == run;
    MinuteConserves(After(h, w, run), w, m);
  }

  /** The first minute of the epoch, called twice without any claim. */
  lemma FirstMinuteTwice(h: HashFn, w: nat -> real)
    requires PositiveWeight(w)
    ensures EmittedFor(h, w, [Minute(0, 0, []), Minute(0, 0, [])], 0) == 2 * MICRO_ASE_PER_MINUTE
  {
    var m := Minute(0, 0, []);
    AllocatedAgain(h, w, [], m);
    AllocatedAgain(h, w, [m], m);
    assert [] + [m] == [m] && [m] + [m] == [m, m];
  }
}
