/** twin-protocol/src/osovm.rs: the stub engine, policy selection and the two-phase witness
    protocol. */
module Osovm {
  import opened Text
  import opened BTree
  import opened Simulation
  import opened Wire
  import opened Wrappers
  import Emission

  /** The trigonometric functions of the stub's synthetic rollouts; nothing is assumed of them. */
  datatype Trig = Trig(sin: real -> real, cos: real -> real)

  datatype Scenario = Scenario(name: string, robotModel: string, trajectoryCount: U32, objective: string)

  datatype Trajectory = Trajectory(policyId: string, success: bool, energy: real, risk: real, duration: real)

  datatype RunResult = RunResult(
    engineVersion: string, scenario: Scenario, trajectories: seq<Trajectory>, candidatePolicies: seq<SimPolicy>,
    selectedPolicyId: string, runId: string)

  datatype Twin = Twin(twinId: string, f1: real)

  // ----- the stub

  function PolicyId(i: nat): string {
    if i == 0 then "policy:conservative"
    else if i == 1 then "policy:balanced"
    else if i == 2 then "policy:aggressive"
    else "policy:variant:" + Decimal(i)
  }

  function Clamp01(x: real): (r: real)
    ensures 0.0 <= r <= 1.0
  {
    if x < 0.0 then 0.0 else if x > 1.0 then 1.0 else x
  }

  function Rollout(trig: Trig, f1: real, i: nat): Trajectory {
    var noise := trig.sin(i as real * 0.07) * 0.05;
    var energy := 120.0 + trig.sin(i as real * 12.3) * 30.0;
    var risk := Clamp01(0.15 - f1 * 0.1 + noise);
    var duration := 18.0 + trig.cos(i as real * 0.9) * 5.0;
    Trajectory(PolicyId(i), risk < 0.5, energy, risk, duration)
  }

  function Rollouts(trig: Trig, f1: real, n: nat): (ts: seq<Trajectory>)
    ensures |ts| == n
    ensures forall i :: 0 <= i < n ==> ts[i] == Rollout(trig, f1, i)
  {
    seq(n, i requires 0 <= i < n => Rollout(trig, f1, i))
  }

  type Count = n: int | n > 0 witness 1

  /** Running sums of one policy's rollouts. */
  datatype Sums = Sums(energy: real, risk: real, duration: real, n: Count)

  /** Adds a rollout to the sums of its policy, which start from nothing. */
  function Absorb(m: seq<Entry<Sums>>, t: Trajectory): seq<Entry<Sums>> {
    match Find(m, t.policyId)
    case None => Insert(m, t.policyId, Sums(t.energy, t.risk, t.duration, 1))
    case Some(s) => Insert(m, t.policyId, Sums(s.energy + t.energy, s.risk + t.risk, s.duration + t.duration, s.n + 1))
  }

  function AbsorbAll(ts: seq<Trajectory>): seq<Entry<Sums>> {
    if ts == [] then [] else Absorb(AbsorbAll(ts[..|ts| - 1]), ts[|ts| - 1])
  }

  function Average(e: Entry<Sums>): SimPolicy {
    var n := e.value.n as real;
    SimPolicy(e.key, e.value.energy / n, e.value.risk / n, e.value.duration / n, e.value.n)
  }

  function Averages(m: seq<Entry<Sums>>): (r: seq<SimPolicy>)
    ensures |r| == |m|
    ensures forall i :: 0 <= i < |m| ==> r[i] == Average(m[i])
  {
    seq(|m|, i requires 0 <= i < |m| => Average(m[i]))
  }

  // ----- what the fold adds up

  /** The sum of one figure over the rollouts of one policy. */
  function SumFor(ts: seq<Trajectory>, id: string, figure: Trajectory -> real): real {
    if ts == [] then 0.0
    else SumFor(ts[..|ts| - 1], id, figure) + if ts[|ts| - 1].policyId == id then figure(ts[|ts| - 1]) else 0.0
  }

  function CountFor(ts: seq<Trajectory>, id: string): nat {
    if ts == [] then 0 else CountFor(ts[..|ts| - 1], id) + if ts[|ts| - 1].policyId == id then 1 else 0
  }

  predicate AreSums(ts: seq<Trajectory>, id: string, s: Sums) {
    && s.n == CountFor(ts, id)
    && s.energy == SumFor(ts, id, (t: Trajectory) => t.energy)
    && s.risk == SumFor(ts, id, (t: Trajectory) => t.risk)
    && s.duration == SumFor(ts, id, (t: Trajectory) => t.duration)
  }

  lemma {:induction false} NoneToSum(ts: seq<Trajectory>, id: string, figure: Trajectory -> real)
    requires CountFor(ts, id) == 0
    ensures SumFor(ts, id, figure) == 0.0
  {
    if ts != [] {
      NoneToSum(ts[..|ts| - 1], id, figure);
    }
  }

  /** Whatever rollouts are folded, a policy's entry holds the sums over its own, and there is an entry exactly for
      the policies that have any; the entries are in ascending order of their ids. */
  lemma {:induction false} AbsorbAllSums(ts: seq<Trajectory>, id: string)
    ensures match Find(AbsorbAll(ts), id)
            case None => CountFor(ts, id) == 0
            case Some(s) => AreSums(ts, id, s)
    ensures Sorted(AbsorbAll(ts))
  {
    if ts != [] {
      var front, t := ts[..|ts| - 1], ts[|ts| - 1];
      AbsorbAllSums(front, id);
      AbsorbAllSums(front, t.policyId);
      var m := AbsorbAll(front);
      var sums := match Find(m, t.policyId)
                  case None => Sums(t.energy, t.risk, t.duration, 1)
                  case Some(s) => Sums(s.energy + t.energy, s.risk + t.risk, s.duration + t.duration, s.n + 1);
      FindAfterInsert(m, t.policyId, sums, id);
      InsertSorted(m, t.policyId, sums);
      if CountFor(front, id) == 0 {
        NoneToSum(front, id, (t: Trajectory) => t.energy);
        NoneToSum(front, id, (t: Trajectory) => t.risk);
        NoneToSum(front, id, (t: Trajectory) => t.duration);
      }
    }
  }

  /** The candidate times the number of its rollouts is their sum. */
  predicate IsMean(ts: seq<Trajectory>, p: SimPolicy) {
    && p.samples == CountFor(ts, p.id) > 0
    && p.energy * p.samples as real == SumFor(ts, p.id, (t: Trajectory) => t.energy)
    && p.risk * p.samples as real == SumFor(ts, p.id, (t: Trajectory) => t.risk)
    && p.durationS * p.samples as real == SumFor(ts, p.id, (t: Trajectory) => t.duration)
  }

  lemma QuotientTimes(q: real, x: real, n: real)
    requires n > 0.0 && q == x / n
    ensures q * n == x
  {
  }

  predicate Spreads(p: SimPolicy, s: Sums) {
    && p.samples == s.n
    && p.energy * p.samples as real == s.energy && p.risk * p.samples as real == s.risk
    && p.durationS * p.samples as real == s.duration
  }

  lemma AverageSpreads(e: Entry<Sums>, p: SimPolicy)
    requires p == Average(e)
    ensures p.id == e.key && Spreads(p, e.value)
  {
    var n := e.value.n as real;
    QuotientTimes(p.energy, e.value.energy, n);
    QuotientTimes(p.risk, e.value.risk, n);
    QuotientTimes(p.durationS, e.value.duration, n);
  }

  lemma SpreadSumsAreMeans(ts: seq<Trajectory>, p: SimPolicy, s: Sums)
    requires Spreads(p, s) && AreSums(ts, p.id, s)
    ensures IsMean(ts, p)
  {
  }

  /** Every candidate policy is the mean of the rollouts with its id. */
  lemma CandidatesAreMeans(ts: seq<Trajectory>, i: nat)
    requires i < |AbsorbAll(ts)|
    ensures IsMean(ts, Averages(AbsorbAll(ts))[i])
  {
    var e, p := AbsorbAll(ts)[i], Averages(AbsorbAll(ts))[i];
    AbsorbAllSums(ts, e.key);
    FindMember(AbsorbAll(ts), e);
    AverageSpreads(e, p);
    SpreadSumsAreMeans(ts, p, e.value);
  }

  // ----- selection

  function Objective(objective: string, p: SimPolicy): real {
    if objective == "min_energy" then p.energy
    else if objective == "min_risk" then p.risk
    else if objective == "max_throughput" then p.durationS
    else p.energy * 0.4 + p.risk * 100.0 * 0.6
  }

  /** The first index with the least objective. */
  predicate IsFirstArgmin(policies: seq<SimPolicy>, objective: string, k: nat) {
    && k < |policies|
    && (forall j :: 0 <= j < |policies| ==> Objective(objective, policies[k]) <= Objective(objective, policies[j]))
    && (forall j :: 0 <= j < k ==> Objective(objective, policies[k]) < Objective(objective, policies[j]))
  }

  /** Iterator::min_by keeps the first of equally small elements. */
  function MinBy(policies: seq<SimPolicy>, objective: string): (k: nat)
    requires policies != []
    ensures IsFirstArgmin(policies, objective, k)
  {
    var n := |policies| - 1;
    if n == 0 then 0
    else
      var k := MinBy(policies[..n], objective);
      assert IsFirstArgmin(policies[..n], objective, k);
      if Objective(objective, policies[n]) < Objective(objective, policies[k]) then n else k
  }

  function SelectPolicy(policies: seq<SimPolicy>, objective: string): string
    requires policies != []
  {
    policies[MinBy(policies, objective)].id
  }

  /** No candidate does better than p in what the objective names. */
  predicate NoneBetter(policies: seq<SimPolicy>, objective: string, p: SimPolicy) {
    forall q :: q in policies ==>
      if objective == "min_energy" then p.energy <= q.energy
      else if objective == "min_risk" then p.risk <= q.risk
      else if objective == "max_throughput" then p.durationS <= q.durationS
      else 2.0 * p.energy + 300.0 * p.risk <= 2.0 * q.energy + 300.0 * q.risk
  }

  /** The named objectives compare energy, risk or duration alone; any other one two fifths of the energy and three
      fifths of a hundred times the risk. */
  lemma ArgminIsBest(policies: seq<SimPolicy>, objective: string, k: nat)
    requires IsFirstArgmin(policies, objective, k)
    ensures NoneBetter(policies, objective, policies[k])
  {
    forall q | q in policies ensures Objective(objective, policies[k]) <= Objective(objective, q) {
      var j :| 0 <= j < |policies| && policies[j] == q;
    }
  }

  // ----- the stub yields one policy per rollout

  lemma PolicyIdsDiffer(i: nat, j: nat)
    requires PolicyId(i) == PolicyId(j)
    ensures i == j
  {
    if i >= 3 && j >= 3 {
      PrefixCancels("policy:variant:", Decimal(i), Decimal(j));
      DecimalInjective(i, j);
    } else {
      assert PolicyId(i)[7] == (if i == 0 then 'c' else if i == 1 then 'b' else if i == 2 then 'a' else 'v');
      assert PolicyId(j)[7] == (if j == 0 then 'c' else if j == 1 then 'b' else if j == 2 then 'a' else 'v');
    }
  }

  function SumsOf(t: Trajectory): Sums {
    Sums(t.energy, t.risk, t.duration, 1)
  }

  lemma {:induction false} FreshFindsNothing(m: seq<Entry<Sums>>, key: string)
    requires Fresh(m, key)
    ensures Find(m, key) == None
  {
    if m != [] {
      FreshFindsNothing(m[1..], key);
    }
  }

  function EntryOf(trig: Trig, f1: real, i: nat): Entry<Sums> {
    Entry(PolicyId(i), SumsOf(Rollout(trig, f1, i)))
  }

  function StubEntries(trig: Trig, f1: real): nat -> Entry<Sums> {
    (i: nat) => EntryOf(trig, f1, i)
  }

  lemma StubKeysDiffer(trig: Trig, f1: real, n: nat)
    ensures DistinctKeys(StubEntries(trig, f1), n)
  {
    var f := StubEntries(trig, f1);
    forall i: nat, j: nat | i < j < n ensures f(i).key != f(j).key {
      assert f(i).key == PolicyId(i) && f(j).key == PolicyId(j);
      if PolicyId(i) == PolicyId(j) {
        PolicyIdsDiffer(i, j);
      }
    }
  }

  lemma AbsorbIsInsert(m: seq<Entry<Sums>>, t: Trajectory)
    requires Fresh(m, t.policyId)
    ensures Absorb(m, t) == Insert(m, t.policyId, SumsOf(t))
  {
    FreshFindsNothing(m, t.policyId);
  }

  lemma NextIdFresh(trig: Trig, f1: real, n: nat)
    ensures Fresh(InsertAll(StubEntries(trig, f1), n), PolicyId(n))
  {
    var f := StubEntries(trig, f1);
    StubKeysDiffer(trig, f1, n + 1);
    assert f(n).key == PolicyId(n);
    InsertAllFresh(f, n, f(n).key);
  }

  lemma AbsorbAllLast(ts: seq<Trajectory>, t: Trajectory)
    ensures AbsorbAll(ts + [t]) == Absorb(AbsorbAll(ts), t)
  {
    assert (ts + [t])[..|ts|] == ts;
  }

  lemma RolloutsLast(trig: Trig, f1: real, n: nat)
    ensures Rollouts(trig, f1, n + 1) == Rollouts(trig, f1, n) + [Rollout(trig, f1, n)]
  {
  }

  lemma InsertAllLast(trig: Trig, f1: real, n: nat)
    ensures var t := Rollout(trig, f1, n);
            InsertAll(StubEntries(trig, f1), n + 1)
            == Insert(InsertAll(StubEntries(trig, f1), n), t.policyId, SumsOf(t))
  {
    assert StubEntries(trig, f1)(n) == EntryOf(trig, f1, n);
  }

  /** A rollout with a new id is inserted. */
  lemma AbsorbNext(ts: seq<Trajectory>, t: Trajectory, m: seq<Entry<Sums>>)
    requires AbsorbAll(ts) == m && Fresh(m, t.policyId)
    ensures AbsorbAll(ts + [t]) == Insert(m, t.policyId, SumsOf(t))
  {
    AbsorbAllLast(ts, t);
    AbsorbIsInsert(m, t);
  }

  /** Every rollout has an id of its own, so the fold never adds two of them up. */
  lemma {:induction false} AbsorbAllInserts(trig: Trig, f1: real, n: nat)
    ensures AbsorbAll(Rollouts(trig, f1, n)) == InsertAll(StubEntries(trig, f1), n)
  {
    if n > 0 {
      AbsorbAllInserts(trig, f1, n - 1);
      RolloutsLast(trig, f1, n - 1);
      NextIdFresh(trig, f1, n - 1);
      AbsorbNext(Rollouts(trig, f1, n - 1), Rollout(trig, f1, n - 1), InsertAll(StubEntries(trig, f1), n - 1));
      InsertAllLast(trig, f1, n - 1);
    }
  }

  function StubPolicies(trig: Trig, f1: real, n: nat): seq<SimPolicy> {
    Averages(InsertAll(StubEntries(trig, f1), n))
  }

  /** The policy that rollout i stands for, by itself. */
  function PolicyOf(trig: Trig, f1: real, i: nat): SimPolicy {
    var t := Rollout(trig, f1, i);
    SimPolicy(PolicyId(i), t.energy, t.risk, t.duration, 1)
  }

  lemma AverageOfOne(trig: Trig, f1: real, i: nat)
    ensures Average(EntryOf(trig, f1, i)) == PolicyOf(trig, f1, i)
  {
  }

  /** The candidates are exactly the rollouts' own policies, one each. */
  lemma StubPoliciesAre(trig: Trig, f1: real, n: nat)
    ensures |StubPolicies(trig, f1, n)| == n
    ensures forall i: nat :: i < n ==> PolicyOf(trig, f1, i) in StubPolicies(trig, f1, n)
    ensures forall p :: p in StubPolicies(trig, f1, n) ==> exists i: nat :: i < n && p == PolicyOf(trig, f1, i)
  {
    var f := StubEntries(trig, f1);
    var m := InsertAll(f, n);
    var ps := StubPolicies(trig, f1, n);
    StubKeysDiffer(trig, f1, n);
    InsertAllEntries(f, n, f(0));
    forall i: nat | i < n ensures PolicyOf(trig, f1, i) in ps {
      var e := f(i);
      InsertAllEntries(f, n, e);
      var k :| 0 <= k < |m| && m[k] == e;
      AverageOfOne(trig, f1, i);
      assert ps[k] == PolicyOf(trig, f1, i);
    }
    forall p | p in ps ensures exists i: nat :: i < n && p == PolicyOf(trig, f1, i) {
      var k :| 0 <= k < |ps| && ps[k] == p;
      assert m[k] in m;
      InsertAllEntries(f, n, m[k]);
      var i: nat :| i < n && m[k] == f(i);
      AverageOfOne(trig, f1, i);
    }
  }

  function Trajectories(s: Scenario): (n: nat)
    ensures n >= 2 && n >= s.trajectoryCount && (n == s.trajectoryCount || n == 2)
  {
    if s.trajectoryCount < 2 then 2 else s.trajectoryCount
  }

  /** run_stub */
  function StubRun(trig: Trig, version: string, twin: Twin, scenario: Scenario, runId: string)
    : Result<RunResult, Error>
  {
    var ts := Rollouts(trig, twin.f1, Trajectories(scenario));
    var policies := Averages(AbsorbAll(ts));
    if |policies| < 2 then Err(InsufficientPolicies(|policies|))
    else Ok(RunResult(version, scenario, ts, policies, SelectPolicy(policies, scenario.objective), runId))
  }

  /** run_stub as written: the fold over the trajectories is a loop over the policy map. */
  method RunStub(trig: Trig, version: string, twin: Twin, scenario: Scenario, runId: string)
    returns (r: Result<RunResult, Error>)
    ensures r == StubRun(trig, version, twin, scenario, runId)
  {
    var n := if scenario.trajectoryCount < 2 then 2 else scenario.trajectoryCount;
    var trajectories := Rollouts(trig, twin.f1, n);
    var policyMap: seq<Entry<Sums>> := [];
    for i := 0 to |trajectories|
      invariant policyMap == AbsorbAll(trajectories[..i])
    {
      assert trajectories[..i + 1][..i] == trajectories[..i];
      policyMap := Absorb(policyMap, trajectories[i]);
    }
    assert trajectories[..|trajectories|] == trajectories;
    var candidates := Averages(policyMap);
    if |candidates| < 2 {
      return Err(InsufficientPolicies(|candidates|));
    }
    var selected := SelectPolicy(candidates, scenario.objective);
    r := Ok(RunResult(version, scenario, trajectories, candidates, selected, runId));
  }

  /** A run fit for a receipt: two candidates or more, the selected one a first minimum. */
  predicate Presentable(run: RunResult) {
    && |run.candidatePolicies| >= 2
    && exists k: nat | k < |run.candidatePolicies| ::
         (IsFirstArgmin(run.candidatePolicies, run.scenario.objective, k)
          && run.candidatePolicies[k].id == run.selectedPolicyId)
  }

  /** For every trajectory count the stub succeeds with max(count, 2) candidates and selects a
      minimum of the objective among them. */
  lemma StubIsPresentable(trig: Trig, version: string, twin: Twin, scenario: Scenario, runId: string)
    ensures var r := StubRun(trig, version, twin, scenario, runId);
            && r.Ok? && Presentable(r.value)
            && |r.value.candidatePolicies| == Trajectories(scenario) == |r.value.trajectories|
            && r.value.engineVersion == version && r.value.scenario == scenario && r.value.runId == runId
            && (forall i: nat :: i < Trajectories(scenario) ==>
                  r.value.trajectories[i] == Rollout(trig, twin.f1, i)
                  && PolicyOf(trig, twin.f1, i) in r.value.candidatePolicies)
  {
    var n := Trajectories(scenario);
    AbsorbAllInserts(trig, twin.f1, n);
    StubPoliciesAre(trig, twin.f1, n);
    var ps := StubPolicies(trig, twin.f1, n);
    assert IsFirstArgmin(ps, scenario.objective, MinBy(ps, scenario.objective));
  }

  ghost predicate UnitTrig(trig: Trig) {
    forall x :: -1.0 <= trig.sin(x) <= 1.0 && -1.0 <= trig.cos(x) <= 1.0
  }

  /** What the synthetic rollouts of a twin with a score in 0..1 look like: the clamp never acts, every rollout
      succeeds, and a better twin never runs a higher risk. */
  lemma RolloutBounds(trig: Trig, f1: real, better: real, i: nat)
    requires UnitTrig(trig) && 0.0 <= f1 <= better <= 1.0
    ensures var t := Rollout(trig, f1, i);
            && t.success && t.policyId == PolicyId(i)
            && 90.0 <= t.energy <= 150.0 && 13.0 <= t.duration <= 23.0
            && 0.1 - 0.1 * f1 <= t.risk <= 0.2 - 0.1 * f1
    ensures Rollout(trig, better, i).risk == Rollout(trig, f1, i).risk - 0.1 * (better - f1)
  {
    var noise := trig.sin(i as real * 0.07) * 0.05;
    assert -0.05 <= noise <= 0.05;
  }

  // ----- running, and the two phases

  /** The engine: a version, whether the Sabbath is skipped, and the answer of a configured real
      engine, if there is one and it succeeds. */
  datatype Engine = Engine(version: string, bypassSabbath: bool, remote: Option<RunResult>)

  function Run(trig: Trig, engine: Engine, now: nat, twin: Twin, scenario: Scenario, runId: string)
    : Result<RunResult, Error>
  {
    if !engine.bypassSabbath && Emission.IsSabbath(now) then Err(SabbathFreeze)
    else if engine.remote.Some? then Ok(engine.remote.value)
    else StubRun(trig, engine.version, twin, scenario, runId)
  }

  /** The engine refuses on the Sabbath unless it is told to skip it, and for no other reason; a real engine's
      answer is passed on. */
  lemma RunIff(trig: Trig, engine: Engine, now: nat, twin: Twin, scenario: Scenario, runId: string)
    ensures var r := Run(trig, engine, now, twin, scenario, runId);
            && (r.Ok? <==> engine.bypassSabbath || (now / 86_400 + 4) % 7 != 6)
            && (r.Err? ==> r.error == SabbathFreeze)
            && (r.Ok? && engine.remote.Some? ==> r.value == engine.remote.value)
            && (r.Ok? && engine.remote.None? ==>
                Presentable(r.value) && r.value.scenario == scenario && r.value.engineVersion == engine.version)
  {
    StubIsPresentable(trig, engine.version, twin, scenario, runId);
  }

  /** What both phases commit to. */
  function RunCommitted(x: Crypto, run: RunResult, twinId: string): Committed {
    Committed(twinId, run.engineVersion, run.scenario.robotModel, run.scenario.trajectoryCount,
              x.policiesJson(run.candidatePolicies))
  }

  /** Phase 1. */
  function RunAndCommitment(
    trig: Trig, x: Crypto, engine: Engine, now: nat, twin: Twin, scenario: Scenario, runId: string)
    : Result<(RunResult, string), Error>
  {
    match Run(trig, engine, now, twin, scenario, runId)
    case Err(e) => Err(e)
    case Ok(run) => Ok((run, Commitment(x.h, RunCommitted(x, run, twin.twinId))))
  }

  /** Phase 2. */
  function ProveWithAttestations(
    x: Crypto, stamp: Stamp, run: RunResult, twinId: string, key: string, attestations: seq<Attestation>)
    : Result<Receipt, Error>
  {
    if |attestations| < 2 then Err(InsufficientWitnesses(|attestations|))
    else Build(x, stamp, twinId, run.engineVersion, run.scenario.robotModel, run.scenario.trajectoryCount,
               run.candidatePolicies, run.selectedPolicyId, run.scenario.objective, attestations, key)
  }

  /** What build asks of a run: two candidates or more, the selected one among them. */
  predicate Buildable(run: RunResult) {
    |run.candidatePolicies| >= 2 && Contains(run.candidatePolicies, run.selectedPolicyId)
  }

  lemma PresentableIsBuildable(run: RunResult)
    requires Presentable(run)
    ensures Buildable(run)
  {
  }

  /** The receipt shows the run: its engine, model and count, all its candidates, the one it selected and by what
      objective, the attestations, and a signature of the commitment. */
  predicate PresentsRun(
    x: Crypto, stamp: Stamp, run: RunResult, twinId: string, key: string, attestations: seq<Attestation>, r: Receipt)
  {
    && r.receiptId == stamp.receiptId && r.identity == stamp.identity && r.timestamp == stamp.timestamp
    && r.twinId == twinId && r.simEngine == run.engineVersion
    && r.robotModel == run.scenario.robotModel && r.trajectoryCount == run.scenario.trajectoryCount
    && r.allPolicies == run.candidatePolicies
    && r.selectedPolicyId == run.selectedPolicyId && r.selectionCriteria == run.scenario.objective
    && r.witnessSigs == attestations && r.witnessIds == WitnessIds(attestations)
    && x.sign(r.merkleCommitment, key) == Some(r.signature)
  }

  lemma ProveBuilds(
    x: Crypto, stamp: Stamp, run: RunResult, twinId: string, key: string, attestations: seq<Attestation>)
    ensures var commitment := Commitment(x.h, RunCommitted(x, run, twinId));
            var r := ProveWithAttestations(x, stamp, run, twinId, key, attestations);
            && (r.Ok? <==>
                && Buildable(run) && x.sign(commitment, key).Some?
                && |attestations| >= 2 && AllCarry(attestations, commitment))
            && (r.Ok? ==>
                && Sound(x, r.value)
                && r.value.merkleCommitment == commitment
                && PresentsRun(x, stamp, run, twinId, key, attestations, r.value)
                && CommittedOf(x, r.value) == RunCommitted(x, run, twinId))
  {
    BuildSucceedsIff(x, stamp, twinId, run.engineVersion, run.scenario.robotModel, run.scenario.trajectoryCount,
                     run.candidatePolicies, run.selectedPolicyId, run.scenario.objective, attestations, key);
  }

  /** The commitment handed out in phase 1 is the one phase 2 rebuilds. Whatever the engine answered,
      phase 2 succeeds exactly for a run with two candidates and the selected one among them, a usable
      key, and two or more attestations that all carry that commitment. */
  lemma TwoPhases(
    trig: Trig, x: Crypto, engine: Engine, now: nat, twin: Twin, scenario: Scenario, runId: string,
    stamp: Stamp, key: string, attestations: seq<Attestation>)
    requires RunAndCommitment(trig, x, engine, now, twin, scenario, runId).Ok?
    ensures var (run, commitment) := RunAndCommitment(trig, x, engine, now, twin, scenario, runId).value;
            var second := ProveWithAttestations(x, stamp, run, twin.twinId, key, attestations);
            && (second.Ok? <==>
                && Buildable(run) && x.sign(commitment, key).Some?
                && |attestations| >= 2 && AllCarry(attestations, commitment))
            && (second.Ok? ==>
                && Sound(x, second.value)
                && second.value.merkleCommitment == commitment
                && PresentsRun(x, stamp, run, twin.twinId, key, attestations, second.value)
                && CommittedOf(x, second.value) == RunCommitted(x, run, twin.twinId))
  {
    var (run, commitment) := RunAndCommitment(trig, x, engine, now, twin, scenario, runId).value;
    ProveBuilds(x, stamp, run, twin.twinId, key, attestations);
  }

  /** The receipt names a policy of its list that no other does better than, by its own selection criteria. */
  predicate SelectsBest(r: Receipt) {
    exists k: nat | k < |r.allPolicies| ::
      (IsFirstArgmin(r.allPolicies, r.selectionCriteria, k) && r.allPolicies[k].id == r.selectedPolicyId
       && NoneBetter(r.allPolicies, r.selectionCriteria, r.allPolicies[k]))
  }

  lemma PresentedIsBest(run: RunResult, r: Receipt)
    requires Presentable(run)
    requires r.allPolicies == run.candidatePolicies
    requires r.selectedPolicyId == run.selectedPolicyId && r.selectionCriteria == run.scenario.objective
    ensures SelectsBest(r)
  {
    var k: nat :| k < |run.candidatePolicies| && IsFirstArgmin(run.candidatePolicies, run.scenario.objective, k)
                  && run.candidatePolicies[k].id == run.selectedPolicyId;
    ArgminIsBest(run.candidatePolicies, run.scenario.objective, k);
  }

  /** On a weekday, without a real engine, both phases go through from any scenario, and the receipt's selected
      policy is a first minimum of the scenario's objective. */
  lemma StubTwoPhases(
    trig: Trig, x: Crypto, engine: Engine, now: nat, twin: Twin, scenario: Scenario, runId: string,
    stamp: Stamp, key: string, attestations: seq<Attestation>)
    requires engine.remote.None? && (engine.bypassSabbath || !Emission.IsSabbath(now))
    requires forall c :: x.sign(c, key).Some?
    ensures var first := RunAndCommitment(trig, x, engine, now, twin, scenario, runId);
            && first.Ok?
            && var second := ProveWithAttestations(x, stamp, first.value.0, twin.twinId, key, attestations);
               && (second.Ok? <==> |attestations| >= 2 && AllCarry(attestations, first.value.1))
               && (second.Ok? ==> second.value.selectionCriteria == scenario.objective && SelectsBest(second.value))
  {
    StubIsPresentable(trig, engine.version, twin, scenario, runId);
    var first := RunAndCommitment(trig, x, engine, now, twin, scenario, runId);
    PresentableIsBuildable(first.value.0);
    TwoPhases(trig, x, engine, now, twin, scenario, runId, stamp, key, attestations);
    var second := ProveWithAttestations(x, stamp, first.value.0, twin.twinId, key, attestations);
    if second.Ok? {
      PresentedIsBest(first.value.0, second.value);
    }
  }

  // ----- the one-call pipeline

  /** What each local witness hands in: it signs the commitment, and an unusable key leaves a mark. */
  function SelfAttest(x: Crypto, commitment: string, keys: seq<(string, string)>, clock: nat -> nat)
    : (r: seq<Attestation>)
    ensures |r| == |keys|
  {
    seq(|keys|, i requires 0 <= i < |keys| =>
      var sig := x.sign(commitment, keys[i].1);
      Attestation(keys[i].0, commitment, clock(i), if sig.Some? then sig.value else "invalid"))
  }

  /** prove: run, let the local witnesses sign, build. */
  function Prove(
    trig: Trig, x: Crypto, engine: Engine, now: nat, twin: Twin, scenario: Scenario, runId: string,
    stamp: Stamp, key: string, keys: seq<(string, string)>, clock: nat -> nat)
    : Result<Receipt, Error>
  {
    if |keys| < 2 then Err(InsufficientWitnesses(|keys|))
    else
      match Run(trig, engine, now, twin, scenario, runId)
      case Err(e) => Err(e)
      case Ok(run) =>
        var commitment := Commitment(x.h, RunCommitted(x, run, twin.twinId));
        Build(x, stamp, twin.twinId, run.engineVersion, run.scenario.robotModel, run.scenario.trajectoryCount,
              run.candidatePolicies, run.selectedPolicyId, run.scenario.objective,
              SelfAttest(x, commitment, keys, clock), key)
  }

  /** One call does what the two phases do with local witnesses. So it goes through exactly for a run
      with two candidates and the selected one among them, a usable key, and two or more witness keys. */
  lemma ProveIsTwoPhases(
    trig: Trig, x: Crypto, engine: Engine, now: nat, twin: Twin, scenario: Scenario, runId: string,
    stamp: Stamp, key: string, keys: seq<(string, string)>, clock: nat -> nat)
    requires RunAndCommitment(trig, x, engine, now, twin, scenario, runId).Ok?
    ensures var (run, commitment) := RunAndCommitment(trig, x, engine, now, twin, scenario, runId).value;
            var attestations := SelfAttest(x, commitment, keys, clock);
            var r := Prove(trig, x, engine, now, twin, scenario, runId, stamp, key, keys, clock);
            && r == ProveWithAttestations(x, stamp, run, twin.twinId, key, attestations)
            && (r.Ok? <==> Buildable(run) && x.sign(commitment, key).Some? && |keys| >= 2)
            && (r.Ok? ==>
                && PresentsRun(x, stamp, run, twin.twinId, key, attestations, r.value)
                && r.value.merkleCommitment == commitment
                && forall i :: 0 <= i < |keys| ==>
                     && r.value.witnessIds[i] == keys[i].0
                     && r.value.witnessSigs[i].merkleCommitment == commitment
                     && r.value.witnessSigs[i].timestamp == clock(i))
  {
    var (run, commitment) := RunAndCommitment(trig, x, engine, now, twin, scenario, runId).value;
    TwoPhases(trig, x, engine, now, twin, scenario, runId, stamp, key, SelfAttest(x, commitment, keys, clock));
  }

  /** Too few witnesses are reported before anything is run or built. A run that is refused ends the pipeline. */
  lemma TooFewFirst(
    trig: Trig, x: Crypto, engine: Engine, now: nat, twin: Twin, scenario: Scenario, runId: string,
    stamp: Stamp, run: RunResult, key: string, keys: seq<(string, string)>, clock: nat -> nat,
    attestations: seq<Attestation>)
    ensures var r := Prove(trig, x, engine, now, twin, scenario, runId, stamp, key, keys, clock);
            && (|keys| < 2 ==> r == Err(InsufficientWitnesses(|keys|)))
            && (|keys| >= 2 && !engine.bypassSabbath && (now / 86_400 + 4) % 7 == 6 ==> r == Err(SabbathFreeze))
    ensures |attestations| < 2 ==>
              ProveWithAttestations(x, stamp, run, twin.twinId, key, attestations)
              == Err(InsufficientWitnesses(|attestations|))
    ensures !engine.bypassSabbath && (now / 86_400 + 4) % 7 == 6 ==>
              RunAndCommitment(trig, x, engine, now, twin, scenario, runId) == Err(SabbathFreeze)
  {
    RunIff(trig, engine, now, twin, scenario, runId);
  }

  // ----- what the receipt says about its witnesses

  /** Every recorded attestation is its witness's own signature of the receipt's commitment. */
  predicate AllSigned(x: Crypto, r: Receipt, keys: seq<(string, string)>)
    requires |r.witnessSigs| == |keys|
  {
    forall i :: 0 <= i < |keys| ==>
      x.sign(r.merkleCommitment, keys[i].1) == Some(r.witnessSigs[i].signature)
  }

  predicate AllCanSign(x: Crypto, commitment: string, keys: seq<(string, string)>) {
    forall i :: 0 <= i < |keys| ==> x.sign(commitment, keys[i].1).Some?
  }

  /** A key that cannot sign does not stop the receipt. All its attestations are signatures exactly when
      every witness key can sign the commitment of phase 1. */
  lemma AllSignedIff(
    trig: Trig, x: Crypto, engine: Engine, now: nat, twin: Twin, scenario: Scenario, runId: string,
    stamp: Stamp, key: string, keys: seq<(string, string)>, clock: nat -> nat)
    requires Prove(trig, x, engine, now, twin, scenario, runId, stamp, key, keys, clock).Ok?
    ensures RunAndCommitment(trig, x, engine, now, twin, scenario, runId).Ok?
    ensures var r := Prove(trig, x, engine, now, twin, scenario, runId, stamp, key, keys, clock).value;
            var commitment := RunAndCommitment(trig, x, engine, now, twin, scenario, runId).value.1;
            && |r.witnessSigs| == |keys|
            && (AllSigned(x, r, keys) <==> AllCanSign(x, commitment, keys))
  {
    var commitment := RunAndCommitment(trig, x, engine, now, twin, scenario, runId).value.1;
    ProveIsTwoPhases(trig, x, engine, now, twin, scenario, runId, stamp, key, keys, clock);
    var attestations := SelfAttest(x, commitment, keys, clock);
    forall i | 0 <= i < |keys|
      ensures x.sign(commitment, keys[i].1) == Some(attestations[i].signature)
              <==> x.sign(commitment, keys[i].1).Some?
    {
    }
  }

  /** Signing that works with one key only. */
  function OneKeySigner(h: HashFn, policiesJson: seq<SimPolicy> -> string): Crypto {
    Crypto.Crypto(h, policiesJson, (message: string, key: string) => if key == "owner" then Some(message) else None)
  }

  /** Two witnesses, neither with a usable key: the receipt is built, and records no signature. */
  lemma UnusableKeysCount(
    trig: Trig, h: HashFn, policiesJson: seq<SimPolicy> -> string, now: nat, twin: Twin, scenario: Scenario,
    runId: string, stamp: Stamp, clock: nat -> nat)
    ensures var x, keys := OneKeySigner(h, policiesJson), [("w1", "lost"), ("w2", "lost")];
            var r := Prove(trig, x, Engine("osovm/2.0", true, None), now, twin, scenario, runId, stamp, "owner",
                           keys, clock);
            && r.Ok? && |r.value.witnessSigs| == |keys| && !AllSigned(x, r.value, keys)
            && r.value.witnessSigs[0].signature == r.value.witnessSigs[1].signature == "invalid"
  {
    var x, keys := OneKeySigner(h, policiesJson), [("w1", "lost"), ("w2", "lost")];
    var engine := Engine("osovm/2.0", true, None);
    StubIsPresentable(trig, engine.version, twin, scenario, runId);
    var (run, commitment) := RunAndCommitment(trig, x, engine, now, twin, scenario, runId).value;
    PresentableIsBuildable(run);
    ProveIsTwoPhases(trig, x, engine, now, twin, scenario, runId, stamp, "owner", keys, clock);
    AllSignedIff(trig, x, engine, now, twin, scenario, runId, stamp, "owner", keys, clock);
    assert x.sign(commitment, keys[0].1) == None;
  }

  ghost predicate TwoDifferent(ids: seq<string>) {
    exists a, b :: a in ids && b in ids && a != b
  }

  /** Some two attestations come from different witnesses. */
  ghost predicate FromTwoWitnesses(attestations: seq<Attestation>) {
    exists a, b :: a in attestations && b in attestations && a.witnessId != b.witnessId
  }

  lemma WitnessIdsAre(attestations: seq<Attestation>, id: string)
    ensures id in WitnessIds(attestations) <==> exists a :: a in attestations && a.witnessId == id
  {
    if id in WitnessIds(attestations) {
      var i :| 0 <= i < |attestations| && WitnessIds(attestations)[i] == id;
      assert attestations[i] in attestations;
    }
    if a :| a in attestations && a.witnessId == id {
      var i :| 0 <= i < |attestations| && attestations[i] == a;
      assert WitnessIds(attestations)[i] == id;
    }
  }

  lemma DifferentIff(attestations: seq<Attestation>)
    ensures TwoDifferent(WitnessIds(attestations)) <==> FromTwoWitnesses(attestations)
  {
    if TwoDifferent(WitnessIds(attestations)) {
      var a, b :| a in WitnessIds(attestations) && b in WitnessIds(attestations) && a != b;
      WitnessIdsAre(attestations, a);
      WitnessIdsAre(attestations, b);
    }
    if FromTwoWitnesses(attestations) {
      var a, b :| a in attestations && b in attestations && a.witnessId != b.witnessId;
      WitnessIdsAre(attestations, a.witnessId);
      WitnessIdsAre(attestations, b.witnessId);
    }
  }

  /** Phase 2 does not ask for it: a receipt names two different witnesses exactly when two of the given
      attestations do. */
  lemma IndependentIff(
    x: Crypto, stamp: Stamp, run: RunResult, twinId: string, key: string, attestations: seq<Attestation>)
    requires ProveWithAttestations(x, stamp, run, twinId, key, attestations).Ok?
    ensures var r := ProveWithAttestations(x, stamp, run, twinId, key, attestations).value;
            TwoDifferent(r.witnessIds) <==> FromTwoWitnesses(attestations)
  {
    ProveBuilds(x, stamp, run, twinId, key, attestations);
    DifferentIff(attestations);
  }

  /** Attestations collected for one twin do not serve for another: given a different twin id,
      phase 2 fails, or the two commitments yield a collision. */
  lemma WrongTwin(
    trig: Trig, x: Crypto, engine: Engine, now: nat, twin: Twin, scenario: Scenario, runId: string,
    stamp: Stamp, key: string, attestations: seq<Attestation>, twinId: string)
    requires RunAndCommitment(trig, x, engine, now, twin, scenario, runId).Ok?
    requires var (run, commitment) := RunAndCommitment(trig, x, engine, now, twin, scenario, runId).value;
             && twinId != twin.twinId && AllCarry(attestations, commitment)
             && ProveWithAttestations(x, stamp, run, twinId, key, attestations).Ok?
    ensures var (run, commitment) := RunAndCommitment(trig, x, engine, now, twin, scenario, runId).value;
            var found := FindCommitmentCollision(x.h, RunCommitted(x, run, twin.twinId), RunCommitted(x, run, twinId));
            found.Some? && Collides(x.h, found.value)
  {
    var (run, commitment) := RunAndCommitment(trig, x, engine, now, twin, scenario, runId).value;
    BuildSucceedsIff(x, stamp, twinId, run.engineVersion, run.scenario.robotModel, run.scenario.trajectoryCount,
                     run.candidatePolicies, run.selectedPolicyId, run.scenario.objective, attestations, key);
    assert attestations[0].merkleCommitment == commitment;
    CommitmentBinds(x.h, RunCommitted(x, run, twin.twinId), RunCommitted(x, run, twinId));
  }

  /** Witnesses are counted, not compared: one attestation given twice is two witnesses, whoever
      signed it. */
  lemma OneWitnessTwice(x: Crypto, stamp: Stamp, run: RunResult, twinId: string, key: string, a: Attestation)
    requires Buildable(run) && a.merkleCommitment == Commitment(x.h, RunCommitted(x, run, twinId))
    requires x.sign(a.merkleCommitment, key).Some?
    ensures var r := ProveWithAttestations(x, stamp, run, twinId, key, [a, a]);
            r.Ok? && r.value.witnessIds == [a.witnessId, a.witnessId] && !TwoDifferent(r.value.witnessIds)
  {
    ProveBuilds(x, stamp, run, twinId, key, [a, a]);
    assert WitnessIds([a, a]) == [a.witnessId, a.witnessId];
  }
}
