/** sovereign-node/src/jobs.rs and swarm.rs: capture jobs, and the monitor that polls them while
    they run. */
module Swarm {
  import opened Text
  import opened Wrappers

  datatype JobStatus =
    | Queued
    | Running
    | Completed(twinId: string, sceneReceiptId: string, captureReceiptId: string)
    | Failed(reason: string)

  datatype Job = Job(jobId: string, deviceId: string, status: JobStatus)

  type Jobs = map<string, Job>

  // ----- the job store

  type Reading = Option<JobStatus>

  /** What a reader of the store learns of a job. */
  function Read(jobs: Jobs, id: string): Reading {
    if id in jobs then Some(jobs[id].status) else None
  }

  function StatusOf(job: Option<Job>): Reading {
    if job.Some? then Some(job.value.status) else None
  }

  function Updated(jobs: Jobs, id: string, status: JobStatus): Jobs {
    if id in jobs then jobs[id := jobs[id].(status := status)] else jobs
  }

  function Apply(jobs: Jobs, write: Write): Jobs {
    match write
    case Put(job) => jobs[job.jobId := job]
    case SetStatus(id, status) => Updated(jobs, id, status)
  }

  class JobStore {
    var inner: Jobs

    constructor ()
      ensures inner == map[]
    {
      inner := map[];
    }

    method Insert(job: Job)
      modifies this
      ensures inner == old(inner)[job.jobId := job] == Apply(old(inner), Put(job))
    {
      inner := inner[job.jobId := job];
    }

    /** Whatever other tasks do to the store until moment t. */
    method Elapse(w: World, t: nat)
      modifies this
      ensures inner == w(t)
    {
      inner := w(t);
    }

    method Get(id: string) returns (r: Option<Job>)
      ensures StatusOf(r) == Read(inner, id)
      ensures r.Some? ==> id in inner && r.value == inner[id]
    {
      r := if id in inner then Some(inner[id]) else None;
    }

    method UpdateStatus(id: string, status: JobStatus)
      modifies this
      ensures inner == Updated(old(inner), id, status) == Apply(old(inner), SetStatus(id, status))
    {
      if id in inner {
        inner := inner[id := inner[id].(status := status)];
      }
    }
  }

  /** What is read after a write: the job written, and of all others what was read before. */
  lemma ReadAfterWrite(jobs: Jobs, job: Job, id: string, status: JobStatus, other: string)
    ensures Read(jobs[job.jobId := job], other) == if other == job.jobId then Some(job.status) else Read(jobs, other)
    ensures Read(Updated(jobs, id, status), other)
         == if other == id && Read(jobs, id).Some? then Some(status) else Read(jobs, other)
    ensures Updated(jobs, id, status).Keys == jobs.Keys
    ensures id in jobs ==> Updated(jobs, id, status)[id] == Job(jobs[id].jobId, jobs[id].deviceId, status)
  {
  }

  // ----- the life of a job

  predicate Settled(s: JobStatus) {
    s.Completed? || s.Failed?
  }

  /** One status change made by run_capture_job. */
  predicate Step(s: JobStatus, t: JobStatus) {
    (s == Queued && t == Running) || (s == Running && Settled(t))
  }

  /** Any number of such changes. */
  predicate Progress(s: JobStatus, t: JobStatus) {
    s == t || s == Queued || (s == Running && t != Queued)
  }

  lemma ProgressIsSteps(s: JobStatus, t: JobStatus)
    ensures Progress(s, t) <==> s == t || Step(s, t) || (Step(s, Running) && Step(Running, t))
  {
  }

  lemma ProgressComposes(s: JobStatus, t: JobStatus, u: JobStatus)
    requires Progress(s, t) && Progress(t, u)
    ensures Progress(s, u)
    ensures Settled(s) ==> s == u
  {
  }

  /** Jobs only advance; none disappears, and new ones may be queued meanwhile. */
  ghost predicate StoreProgress(a: Jobs, b: Jobs) {
    forall id :: id in a ==> id in b && Progress(a[id].status, b[id].status)
  }

  lemma UpdateIsProgress(jobs: Jobs, id: string, status: JobStatus)
    ensures StoreProgress(jobs, Updated(jobs, id, status)) <==> (id in jobs ==> Progress(jobs[id].status, status))
  {
    if id in jobs {
      assert Updated(jobs, id, status)[id].status == status;
    }
  }

  /** Storing a job is a forward step exactly when its id is new or its status is a forward step. */
  lemma InsertIsProgress(jobs: Jobs, job: Job)
    ensures StoreProgress(jobs, jobs[job.jobId := job])
            <==> (job.jobId in jobs ==> Progress(jobs[job.jobId].status, job.status))
  {
    assert job.jobId in jobs[job.jobId := job];
  }

  /** The store as the monitor can find it at successive moments: every interleaving of any number
      of job steps is some such function of time. */
  type World = nat -> Jobs

  ghost predicate AdvancesAt(w: World, t: nat) {
    StoreProgress(w(t), w(t + 1))
  }

  ghost predicate Advancing(w: World) {
    forall t: nat :: AdvancesAt(w, t)
  }

  // ----- worlds made of writes

  /** One write to the store. */
  datatype Write = Put(job: Job) | SetStatus(id: string, status: JobStatus)

  /** A write that a careful caller makes: a new id, or a status that is a forward step for the job. */
  predicate Guarded(jobs: Jobs, write: Write) {
    match write
    case Put(job) => job.jobId in jobs ==> Progress(jobs[job.jobId].status, job.status)
    case SetStatus(id, status) => id in jobs ==> Progress(jobs[id].status, status)
  }

  function StoreAt(start: Jobs, writes: nat -> Write, t: nat): Jobs {
    if t == 0 then start else Apply(StoreAt(start, writes, t - 1), writes(t - 1))
  }

  /** The store after each of a sequence of writes. */
  function WorldOf(start: Jobs, writes: nat -> Write): World {
    (t: nat) => StoreAt(start, writes, t)
  }

  predicate GuardedAt(start: Jobs, writes: nat -> Write, t: nat) {
    Guarded(StoreAt(start, writes, t), writes(t))
  }

  lemma ApplyIsProgress(jobs: Jobs, write: Write)
    ensures StoreProgress(jobs, Apply(jobs, write)) <==> Guarded(jobs, write)
  {
    match write
    case Put(job) => InsertIsProgress(jobs, job);
    case SetStatus(id, status) => UpdateIsProgress(jobs, id, status);
  }

  /** The writes make a world of advancing jobs exactly when each of them is guarded at its moment. */
  lemma WritesAdvanceIff(start: Jobs, writes: nat -> Write)
    ensures Advancing(WorldOf(start, writes)) <==> forall t: nat :: GuardedAt(start, writes, t)
  {
    var w := WorldOf(start, writes);
    forall t: nat ensures AdvancesAt(w, t) <==> GuardedAt(start, writes, t) {
      assert w(t + 1) == Apply(w(t), writes(t));
      ApplyIsProgress(w(t), writes(t));
    }
  }

  // ----- moments

  lemma {:induction false} AdvancesOver(w: World, t: nat, u: nat)
    requires Advancing(w) && t <= u
    ensures StoreProgress(w(t), w(u))
  {
    if t < u {
      AdvancesOver(w, t, u - 1);
      assert AdvancesAt(w, u - 1);
      forall id | id in w(t) ensures id in w(u) && Progress(w(t)[id].status, w(u)[id].status) {
        ProgressComposes(w(t)[id].status, w(u - 1)[id].status, w(u)[id].status);
      }
    }
  }

  // ----- one poll

  /** The children are read one after the other, each at a moment of its own. */
  function Snapshot(w: World, ids: seq<string>, t: nat): (r: seq<Reading>)
    ensures |r| == |ids|
    ensures forall i :: 0 <= i < |ids| ==> r[i] == Read(w(t + i), ids[i])
  {
    seq(|ids|, i requires 0 <= i < |ids| => Read(w(t + i), ids[i]))
  }

  datatype Kind = Missing | Active | Succeeded | Broken

  function KindOf(r: Reading): Kind {
    match r
    case None => Missing
    case Some(Completed(_, _, _)) => Succeeded
    case Some(Failed(_)) => Broken
    case _ => Active
  }

  /** How many of the first n readings are of this kind. */
  function Count(rs: seq<Reading>, n: nat, kind: Kind): nat
    requires n <= |rs|
  {
    if n == 0 then 0 else Count(rs, n - 1, kind) + if KindOf(rs[n - 1]) == kind then 1 else 0
  }

  function Finished(rs: seq<Reading>): nat {
    Count(rs, |rs|, Succeeded) + Count(rs, |rs|, Broken)
  }

  predicate Done(rs: seq<Reading>) {
    Count(rs, |rs|, Active) == 0 && Finished(rs) == |rs|
  }

  predicate AllSettled(rs: seq<Reading>) {
    forall i :: 0 <= i < |rs| ==> rs[i].Some? && Settled(rs[i].value)
  }

  lemma {:induction false} CountBound(rs: seq<Reading>, n: nat)
    requires n <= |rs|
    ensures Count(rs, n, Succeeded) + Count(rs, n, Broken) + Count(rs, n, Active) <= n
    ensures Count(rs, n, Succeeded) + Count(rs, n, Broken) == n
            <==> forall i :: 0 <= i < n ==> rs[i].Some? && Settled(rs[i].value)
  {
    if n > 0 {
      CountBound(rs, n - 1);
    }
  }

  /** The poll is the last one exactly when every child was found, and found settled. */
  lemma DoneIff(rs: seq<Reading>)
    ensures Done(rs) <==> AllSettled(rs)
  {
    CountBound(rs, |rs|);
  }

  /** The places of the first n readings at which a child was found settled. */
  function SettledPlaces(rs: seq<Reading>, n: nat): (r: set<nat>)
    requires n <= |rs|
  {
    set i: nat | i < n && rs[i].Some? && Settled(rs[i].value)
  }

  lemma {:induction false} CountIsSettled(rs: seq<Reading>, n: nat)
    requires n <= |rs|
    ensures Count(rs, n, Succeeded) + Count(rs, n, Broken) == |SettledPlaces(rs, n)|
  {
    if n > 0 {
      CountIsSettled(rs, n - 1);
      var front := SettledPlaces(rs, n - 1);
      if rs[n - 1].Some? && Settled(rs[n - 1].value) {
        assert SettledPlaces(rs, n) == front + {n - 1};
      } else {
        assert SettledPlaces(rs, n) == front;
      }
    } else {
      assert SettledPlaces(rs, 0) == {};
    }
  }

  /** What a poll counts as finished is the number of children it found settled. */
  lemma FinishedIsSettled(rs: seq<Reading>)
    ensures Finished(rs) == |SettledPlaces(rs, |rs|)|
  {
    CountIsSettled(rs, |rs|);
  }

  // ----- aggregation

  datatype SwarmStatus =
    | SwarmPending
    | SwarmRunning(completed: nat, total: nat)
    | SwarmCompleted(twinIds: seq<string>, receiptIds: seq<string>)
    | SwarmPartiallyFailed(twins: seq<string>, failed: seq<string>)
    | SwarmFailed(reason: string)

  const TIMED_OUT: string := "timed out after 15 minutes"

  function AllFailed(total: nat): string {
    "all " + Decimal(total) + " devices failed"
  }

  function DeviceAt(devices: seq<string>, i: nat): string {
    if i < |devices| then devices[i] else ""
  }

  predicate IsCompleted(r: Reading) {
    r.Some? && r.value.Completed?
  }

  function TwinsUpTo(rs: seq<Reading>, n: nat): seq<string>
    requires n <= |rs|
  {
    if n == 0 then []
    else if IsCompleted(rs[n - 1]) then TwinsUpTo(rs, n - 1) + [rs[n - 1].value.twinId]
    else TwinsUpTo(rs, n - 1)
  }

  function ReceiptsUpTo(rs: seq<Reading>, n: nat): seq<string>
    requires n <= |rs|
  {
    if n == 0 then []
    else if IsCompleted(rs[n - 1]) then ReceiptsUpTo(rs, n - 1) + [rs[n - 1].value.sceneReceiptId]
    else ReceiptsUpTo(rs, n - 1)
  }

  function FailedUpTo(rs: seq<Reading>, devices: seq<string>, n: nat): seq<string>
    requires n <= |rs|
  {
    if n == 0 then []
    else if IsCompleted(rs[n - 1]) then FailedUpTo(rs, devices, n - 1)
    else FailedUpTo(rs, devices, n - 1) + [DeviceAt(devices, n - 1)]
  }

  function TwinIds(rs: seq<Reading>): seq<string> {
    TwinsUpTo(rs, |rs|)
  }

  function ReceiptIds(rs: seq<Reading>): seq<string> {
    ReceiptsUpTo(rs, |rs|)
  }

  function FailedDevices(rs: seq<Reading>, devices: seq<string>): seq<string> {
    FailedUpTo(rs, devices, |rs|)
  }

  function Verdict(rs: seq<Reading>, devices: seq<string>): SwarmStatus {
    if FailedDevices(rs, devices) == [] then SwarmCompleted(TwinIds(rs), ReceiptIds(rs))
    else if TwinIds(rs) == [] then SwarmFailed(AllFailed(|rs|))
    else SwarmPartiallyFailed(TwinIds(rs), FailedDevices(rs, devices))
  }

  method Aggregate(rs: seq<Reading>, devices: seq<string>) returns (final: SwarmStatus)
    ensures final == Verdict(rs, devices)
  {
    var twins: seq<string>, receipts: seq<string>, failed: seq<string> := [], [], [];
    for i := 0 to |rs|
      invariant twins == TwinsUpTo(rs, i) && receipts == ReceiptsUpTo(rs, i)
      invariant failed == FailedUpTo(rs, devices, i)
    {
      var device := if i < |devices| then devices[i] else "";
      if rs[i].Some? && rs[i].value.Completed? {
        twins := twins + [rs[i].value.twinId];
        receipts := receipts + [rs[i].value.sceneReceiptId];
      } else {
        failed := failed + [device];
      }
    }
    if failed == [] {
      final := SwarmCompleted(twins, receipts);
    } else if twins == [] {
      final := SwarmFailed(AllFailed(|rs|));
    } else {
      final := SwarmPartiallyFailed(twins, failed);
    }
  }

  /** Positions of the completed children among the first n, or of the others, in order. */
  function Places(rs: seq<Reading>, n: nat, completed: bool): seq<nat>
    requires n <= |rs|
  {
    if n == 0 then []
    else if IsCompleted(rs[n - 1]) == completed then Places(rs, n - 1, completed) + [n - 1]
    else Places(rs, n - 1, completed)
  }

  predicate Ascending(s: seq<nat>) {
    forall a, b :: 0 <= a < b < |s| ==> s[a] < s[b]
  }

  lemma {:induction false} PlacesAre(rs: seq<Reading>, n: nat, completed: bool, i: nat)
    requires n <= |rs|
    ensures i in Places(rs, n, completed) <==> i < n && IsCompleted(rs[i]) == completed
  {
    if n > 0 {
      PlacesAre(rs, n - 1, completed, i);
    }
  }

  lemma {:induction false} PlacesAscend(rs: seq<Reading>, n: nat, completed: bool)
    requires n <= |rs|
    ensures Ascending(Places(rs, n, completed))
    ensures forall a :: 0 <= a < |Places(rs, n, completed)| ==> Places(rs, n, completed)[a] < n
  {
    if n > 0 {
      PlacesAscend(rs, n - 1, completed);
    }
  }

  lemma {:induction false} ListLengths(rs: seq<Reading>, devices: seq<string>, n: nat)
    requires n <= |rs|
    ensures |TwinsUpTo(rs, n)| == |ReceiptsUpTo(rs, n)| == |Places(rs, n, true)|
    ensures |FailedUpTo(rs, devices, n)| == |Places(rs, n, false)|
    ensures |Places(rs, n, true)| + |Places(rs, n, false)| == n
  {
    if n > 0 {
      ListLengths(rs, devices, n - 1);
    }
  }

  /** The k-th twin and receipt are those of the k-th completed child. */
  lemma {:induction false} TwinsFollowPlaces(rs: seq<Reading>, n: nat, k: nat)
    requires n <= |rs| && k < |Places(rs, n, true)|
    ensures var i := Places(rs, n, true)[k];
            && i < n && IsCompleted(rs[i])
            && k < |TwinsUpTo(rs, n)| && TwinsUpTo(rs, n)[k] == rs[i].value.twinId
            && k < |ReceiptsUpTo(rs, n)| && ReceiptsUpTo(rs, n)[k] == rs[i].value.sceneReceiptId
  {
    ListLengths(rs, [], n - 1);
    if k < |Places(rs, n - 1, true)| {
      TwinsFollowPlaces(rs, n - 1, k);
    }
  }

  /** The k-th failed device is that of the k-th child that did not complete. */
  lemma {:induction false} DevicesFollowPlaces(rs: seq<Reading>, devices: seq<string>, n: nat, k: nat)
    requires n <= |rs| && k < |Places(rs, n, false)|
    ensures var i := Places(rs, n, false)[k];
            && i < n && !IsCompleted(rs[i])
            && k < |FailedUpTo(rs, devices, n)|
            && FailedUpTo(rs, devices, n)[k] == (if i < |devices| then devices[i] else "")
  {
    ListLengths(rs, devices, n - 1);
    if k < |Places(rs, n - 1, false)| {
      DevicesFollowPlaces(rs, devices, n - 1, k);
    }
  }

  // ----- the monitor

  const POLLS: nat := 450

  /** When poll p starts reading: a sleep before it, one moment per child and one to publish. */
  function ReadTime(ids: seq<string>, p: nat): nat {
    if p == 0 then 1 else ReadTime(ids, p - 1) + |ids| + 2
  }

  lemma {:induction false} ReadTimeGrows(ids: seq<string>, p: nat, q: nat)
    requires p <= q
    ensures ReadTime(ids, p) <= ReadTime(ids, q)
  {
    if p < q {
      ReadTimeGrows(ids, p, q - 1);
    }
  }

  function Poll(w: World, ids: seq<string>, p: nat): (r: seq<Reading>)
    ensures |r| == |ids|
  {
    Snapshot(w, ids, ReadTime(ids, p))
  }

  /** What the monitor makes of one poll. */
  datatype Report = Report(finished: nat, done: bool, verdict: SwarmStatus)

  function ReportOf(rs: seq<Reading>, devices: seq<string>): Report {
    Report(Finished(rs), Done(rs), Verdict(rs, devices))
  }

  ghost predicate Observes(reports: nat -> Report, w: World, ids: seq<string>, devices: seq<string>, p: nat) {
    reports(p) == ReportOf(Poll(w, ids, p), devices)
  }

  /** reports is what the monitor makes of each of its polls. */
  ghost predicate Describes(reports: nat -> Report, w: World, ids: seq<string>, devices: seq<string>) {
    forall p: nat :: Observes(reports, w, ids, devices, p)
  }

  lemma ReportsExist(w: World, ids: seq<string>, devices: seq<string>) returns (reports: nat -> Report)
    ensures Describes(reports, w, ids, devices)
  {
    reports := (p: nat) => ReportOf(Poll(w, ids, p), devices);
  }

  /** The first poll from p on that finds every child settled, or 450. */
  function LastPoll(reports: nat -> Report, p: nat): (q: nat)
    requires p <= POLLS
    ensures p <= q <= POLLS
    ensures q < POLLS ==> reports(q).done
    ensures forall k :: p <= k < q ==> !reports(k).done
    decreases POLLS - p, reports
  {
    if p == POLLS || reports(p).done then p else LastPoll(reports, p + 1)
  }

  /** The last status written. */
  function Final(reports: nat -> Report): SwarmStatus {
    var q := LastPoll(reports, 0);
    if q == POLLS then SwarmFailed(TIMED_OUT) else reports(q).verdict
  }

  /** The i-th progress report: nothing finished at first, then what each poll counted. */
  function ProgressAt(reports: nat -> Report, total: nat, i: nat): SwarmStatus {
    SwarmRunning(if i == 0 then 0 else reports(i - 1).finished, total)
  }

  function ProgressReports(reports: nat -> Report, total: nat, n: nat): (r: seq<SwarmStatus>)
    ensures |r| == n
    ensures forall i :: 0 <= i < n ==> r[i] == ProgressAt(reports, total, i)
  {
    seq(n, i requires 0 <= i < n => ProgressAt(reports, total, i))
  }

  /** Everything the monitor writes: a report before the polls and one in each, then the end. */
  function Trail(reports: nat -> Report, total: nat): seq<SwarmStatus> {
    var q := LastPoll(reports, 0);
    ProgressReports(reports, total, if q == POLLS then POLLS + 1 else q + 2) + [Final(reports)]
  }

  datatype SwarmJob = SwarmJob(swarmId: string, deviceIds: seq<string>, childJobs: seq<string>, status: SwarmStatus)

  function WithStatus(m: map<string, SwarmJob>, id: string, status: SwarmStatus): map<string, SwarmJob> {
    if id in m then m[id := m[id].(status := status)] else m
  }

  /** A status change is seen in that swarm's entry, which keeps everything else, and nowhere else. */
  lemma WithStatusIs(m: map<string, SwarmJob>, id: string, status: SwarmStatus, other: string)
    ensures WithStatus(m, id, status).Keys == m.Keys
    ensures id in m ==> var job := WithStatus(m, id, status)[id];
                        job.status == status && job.swarmId == m[id].swarmId
                        && job.deviceIds == m[id].deviceIds && job.childJobs == m[id].childJobs
    ensures other in m && other != id ==> WithStatus(m, id, status)[other] == m[other]
  {
  }

  class SwarmStore {
    var inner: map<string, SwarmJob>

    constructor ()
      ensures inner == map[]
    {
      inner := map[];
    }

    method Insert(job: SwarmJob)
      modifies this
      ensures inner == old(inner)[job.swarmId := job]
    {
      inner := inner[job.swarmId := job];
    }

    method UpdateStatus(id: string, status: SwarmStatus)
      modifies this
      ensures inner == WithStatus(old(inner), id, status)
    {
      if id in inner {
        inner := inner[id := inner[id].(status := status)];
      }
    }
  }

  /** Reads the children from the shared store; between two reads other tasks go on. */
  method ReadAll(w: World, jobs: JobStore, ids: seq<string>, t: nat) returns (rs: seq<Reading>)
    modifies jobs
    ensures rs == Snapshot(w, ids, t)
  {
    rs := [];
    for i := 0 to |ids|
      invariant |rs| == i && forall k :: 0 <= k < i ==> rs[k] == Read(w(t + k), ids[k])
    {
      jobs.Elapse(w, t + i);
      var job := jobs.Get(ids[i]);
      rs := rs + [StatusOf(job)];
    }
  }

  /** One poll: read the children, publish the progress, and decide; `last` is what is written. */
  method PollOnce(w: World, jobs: JobStore, store: SwarmStore, swarmId: string, devices: seq<string>,
                  ids: seq<string>, p: nat)
    returns (done: bool, last: SwarmStatus)
    modifies jobs, store
    ensures var r := ReportOf(Poll(w, ids, p), devices);
            && done == r.done && last == (if done then r.verdict else SwarmRunning(r.finished, |ids|))
            && store.inner == WithStatus(old(store.inner), swarmId, last)
  {
    var rs := ReadAll(w, jobs, ids, ReadTime(ids, p));
    assert rs == Poll(w, ids, p);
    var completed, failed := Count(rs, |rs|, Succeeded), Count(rs, |rs|, Broken);
    var running := Count(rs, |rs|, Active);
    last := SwarmRunning(completed + failed, |ids|);
    store.UpdateStatus(swarmId, last);
    done := running == 0 && completed + failed == |ids|;
    if done {
      last := Aggregate(rs, devices);
      store.UpdateStatus(swarmId, last);
    }
  }

  lemma LastPollIs(reports: nat -> Report, q: nat)
    requires q <= POLLS && (q < POLLS ==> reports(q).done) && forall k :: 0 <= k < q ==> !reports(k).done
    ensures LastPoll(reports, 0) == q
  {
    var r := LastPoll(reports, 0);
    assert r <= q;
  }

  lemma ProgressNext(reports: nat -> Report, total: nat, p: nat)
    ensures ProgressReports(reports, total, p + 2)
            == ProgressReports(reports, total, p + 1) + [SwarmRunning(reports(p).finished, total)]
  {
    assert ProgressAt(reports, total, p + 1) == SwarmRunning(reports(p).finished, total);
  }

  lemma WithStatusTwice(m: map<string, SwarmJob>, id: string, first: SwarmStatus, second: SwarmStatus)
    ensures WithStatus(WithStatus(m, id, first), id, second) == WithStatus(m, id, second)
  {
  }

  lemma TrailEnds(reports: nat -> Report, total: nat, q: nat)
    requires q <= POLLS && (q < POLLS ==> reports(q).done) && forall k :: 0 <= k < q ==> !reports(k).done
    ensures Final(reports) == if q == POLLS then SwarmFailed(TIMED_OUT) else reports(q).verdict
    ensures Trail(reports, total)
         == ProgressReports(reports, total, if q == POLLS then POLLS + 1 else q + 2) + [Final(reports)]
  {
    LastPollIs(reports, q);
  }

  /** monitor_swarm: `trail` is the ghost record of what is written to the store. */
  method MonitorSwarm(w: World, jobs: JobStore, store: SwarmStore, swarmId: string, devices: seq<string>,
                      ids: seq<string>, ghost reports: nat -> Report)
    returns (ghost trail: seq<SwarmStatus>)
    requires Describes(reports, w, ids, devices)
    modifies jobs, store
    ensures trail == Trail(reports, |ids|)
    ensures store.inner == WithStatus(old(store.inner), swarmId, Final(reports))
  {
    store.UpdateStatus(swarmId, SwarmRunning(0, |ids|));
    trail := [SwarmRunning(0, |ids|)];
    var p, last := 0, SwarmRunning(0, |ids|);
    while p < POLLS
      invariant p <= POLLS
      invariant trail == ProgressReports(reports, |ids|, p + 1)
      invariant forall k :: 0 <= k < p ==> !reports(k).done
      invariant store.inner == WithStatus(old(store.inner), swarmId, last)
    {
      var done;
      ghost var before := last;
      done, last := PollOnce(w, jobs, store, swarmId, devices, ids, p);
      WithStatusTwice(old(store.inner), swarmId, before, last);
      assert Observes(reports, w, ids, devices, p);
      ProgressNext(reports, |ids|, p);
      trail := trail + [SwarmRunning(reports(p).finished, |ids|)];
      if done {
        TrailEnds(reports, |ids|, p);
        trail := trail + [last];
        return;
      }
      p := p + 1;
    }
    store.UpdateStatus(swarmId, SwarmFailed(TIMED_OUT));
    WithStatusTwice(old(store.inner), swarmId, last, SwarmFailed(TIMED_OUT));
    TrailEnds(reports, |ids|, POLLS);
    trail := trail + [SwarmFailed(TIMED_OUT)];
  }

  // ----- what holds in every interleaving

  /** A child read settled stays so, with the same outcome, at every later moment. */
  lemma ReadingsAdvance(w: World, ids: seq<string>, t: nat, u: nat, i: nat)
    requires Advancing(w) && i < |ids| && t + i <= u
    requires Snapshot(w, ids, t)[i].Some?
    ensures ids[i] in w(u) && Progress(Snapshot(w, ids, t)[i].value, w(u)[ids[i]].status)
  {
    AdvancesOver(w, t + i, u);
  }

  lemma {:induction false} CountsGrow(a: seq<Reading>, b: seq<Reading>, n: nat)
    requires n <= |a| == |b|
    requires forall i :: 0 <= i < |a| && a[i].Some? ==> b[i].Some? && Progress(a[i].value, b[i].value)
    ensures Count(a, n, Succeeded) <= Count(b, n, Succeeded) && Count(a, n, Broken) <= Count(b, n, Broken)
  {
    if n > 0 {
      CountsGrow(a, b, n - 1);
    }
  }

  lemma PollsAdvance(w: World, ids: seq<string>, p: nat, q: nat)
    requires Advancing(w) && p <= q
    ensures Finished(Poll(w, ids, p)) <= Finished(Poll(w, ids, q)) <= |ids|
    ensures Done(Poll(w, ids, p)) ==> Poll(w, ids, p) == Poll(w, ids, q)
  {
    var a, b := Poll(w, ids, p), Poll(w, ids, q);
    ReadTimeGrows(ids, p, q);
    forall i | 0 <= i < |ids| && a[i].Some? ensures b[i].Some? && Progress(a[i].value, b[i].value) {
      ReadingsAdvance(w, ids, ReadTime(ids, p), ReadTime(ids, q) + i, i);
    }
    CountsGrow(a, b, |ids|);
    CountBound(b, |ids|);
    DoneIff(a);
  }

  /** A record of progress reports that never fall nor exceed the total, then one final status. */
  predicate WellFormedTrail(trail: seq<SwarmStatus>, total: nat) {
    && trail != []
    && (forall i :: 0 <= i < |trail| - 1 ==> trail[i].SwarmRunning? && trail[i].completed <= trail[i].total == total)
    && (forall i, j :: 0 <= i < j < |trail| - 1 ==> trail[i].completed <= trail[j].completed)
    && !trail[|trail| - 1].SwarmRunning? && !trail[|trail| - 1].SwarmPending?
  }

  /** Progress never falls from poll to poll, and a verdict is a final status. */
  ghost predicate SteadyAt(reports: nat -> Report, total: nat, p: nat) {
    && reports(p).finished <= total
    && reports(p).finished <= reports(p + 1).finished
    && !reports(p).verdict.SwarmRunning? && !reports(p).verdict.SwarmPending?
  }

  ghost predicate Steady(reports: nat -> Report, total: nat) {
    forall p: nat :: SteadyAt(reports, total, p)
  }

  lemma {:induction false} FinishedMonotone(reports: nat -> Report, total: nat, p: nat, q: nat)
    requires Steady(reports, total) && p <= q
    ensures reports(p).finished <= reports(q).finished <= total
  {
    assert SteadyAt(reports, total, q);
    if p < q {
      FinishedMonotone(reports, total, p, q - 1);
      assert SteadyAt(reports, total, q - 1);
    }
  }

  lemma VerdictIsFinal(rs: seq<Reading>, devices: seq<string>)
    ensures !Verdict(rs, devices).SwarmRunning? && !Verdict(rs, devices).SwarmPending?
  {
  }

  lemma ReportsSteadyAt(reports: nat -> Report, w: World, ids: seq<string>, devices: seq<string>, p: nat)
    requires Advancing(w)
    requires Observes(reports, w, ids, devices, p) && Observes(reports, w, ids, devices, p + 1)
    ensures SteadyAt(reports, |ids|, p)
  {
    PollsAdvance(w, ids, p, p + 1);
    VerdictIsFinal(Poll(w, ids, p), devices);
  }

  lemma ReportsSteady(reports: nat -> Report, w: World, ids: seq<string>, devices: seq<string>)
    requires Advancing(w) && Describes(reports, w, ids, devices)
    ensures Steady(reports, |ids|)
  {
    forall p: nat ensures SteadyAt(reports, |ids|, p) {
      assert Observes(reports, w, ids, devices, p) && Observes(reports, w, ids, devices, p + 1);
      ReportsSteadyAt(reports, w, ids, devices, p);
    }
  }

  lemma SteadyTrail(reports: nat -> Report, total: nat)
    requires Steady(reports, total)
    ensures WellFormedTrail(Trail(reports, total), total)
    ensures |Trail(reports, total)| <= POLLS + 2
  {
    var trail, q := Trail(reports, total), LastPoll(reports, 0);
    assert SteadyAt(reports, total, q);
    forall i | 0 <= i < |trail| - 1
      ensures trail[i].SwarmRunning? && trail[i].completed <= trail[i].total == total
    {
      assert trail[i] == ProgressAt(reports, total, i);
      if i > 0 {
        FinishedMonotone(reports, total, i - 1, i - 1);
      }
    }
    forall i, j | 0 <= i < j < |trail| - 1 ensures trail[i].completed <= trail[j].completed {
      assert trail[i] == ProgressAt(reports, total, i) && trail[j] == ProgressAt(reports, total, j);
      if i > 0 {
        FinishedMonotone(reports, total, i - 1, j - 1);
      }
    }
  }

  /** However polls and jobs interleave: at most 450 polls, after the initial report progress
      never falls and never exceeds the total, and exactly the last status is final. */
  lemma MonitorTrail(reports: nat -> Report, w: World, ids: seq<string>, devices: seq<string>)
    requires Advancing(w) && Describes(reports, w, ids, devices)
    ensures WellFormedTrail(Trail(reports, |ids|), |ids|) && |Trail(reports, |ids|)| <= 452
  {
    ReportsSteady(reports, w, ids, devices);
    SteadyTrail(reports, |ids|);
  }

  /** Every child is in the store at moment t, and settled. */
  predicate SettledAt(w: World, ids: seq<string>, t: nat) {
    forall i :: 0 <= i < |ids| ==> ids[i] in w(t) && Settled(w(t)[ids[i]].status)
  }

  lemma SnapshotSeesSettled(w: World, ids: seq<string>, t: nat)
    requires Advancing(w)
    ensures SettledAt(w, ids, t) ==> AllSettled(Snapshot(w, ids, t))
    ensures AllSettled(Snapshot(w, ids, t)) ==> SettledAt(w, ids, t + |ids|)
  {
    var rs := Snapshot(w, ids, t);
    if SettledAt(w, ids, t) {
      forall i | 0 <= i < |ids| ensures rs[i].Some? && Settled(rs[i].value) {
        AdvancesOver(w, t, t + i);
      }
    }
    if AllSettled(rs) {
      forall i | 0 <= i < |ids| ensures ids[i] in w(t + |ids|) && Settled(w(t + |ids|)[ids[i]].status) {
        ReadingsAdvance(w, ids, t, t + |ids|, i);
      }
    }
  }

  /** Children settled before a poll starts are found settled; children found settled are. */
  lemma PollSeesSettled(w: World, ids: seq<string>, p: nat)
    requires Advancing(w)
    ensures SettledAt(w, ids, ReadTime(ids, p)) ==> Done(Poll(w, ids, p))
    ensures Done(Poll(w, ids, p)) ==> SettledAt(w, ids, ReadTime(ids, p) + |ids|)
  {
    DoneIff(Poll(w, ids, p));
    SnapshotSeesSettled(w, ids, ReadTime(ids, p));
  }

  lemma ReportDone(reports: nat -> Report, w: World, ids: seq<string>, devices: seq<string>, p: nat)
    requires Advancing(w) && Describes(reports, w, ids, devices)
    ensures SettledAt(w, ids, ReadTime(ids, p)) ==> reports(p).done
    ensures reports(p).done ==> SettledAt(w, ids, ReadTime(ids, p) + |ids|)
  {
    assert Observes(reports, w, ids, devices, p);
    PollSeesSettled(w, ids, p);
  }

  /** If all children have settled by the time a poll starts, that poll or an earlier one ends the
      monitor; and if the monitor has ended on a verdict, all of them have. */
  lemma TimesOutOnlyIfUnsettled(reports: nat -> Report, w: World, ids: seq<string>, devices: seq<string>, p: nat)
    requires Advancing(w) && Describes(reports, w, ids, devices) && p < POLLS
    ensures SettledAt(w, ids, ReadTime(ids, p)) ==> LastPoll(reports, 0) <= p
    ensures var q := LastPoll(reports, 0); q < POLLS ==> SettledAt(w, ids, ReadTime(ids, q) + |ids|)
    ensures (forall k: nat :: k < 450 ==> !reports(k).done)
            ==> Final(reports) == SwarmFailed("timed out after 15 minutes") && |Trail(reports, |ids|)| == 452
  {
    var q := LastPoll(reports, 0);
    ReportDone(reports, w, ids, devices, p);
    ReportDone(reports, w, ids, devices, q);
  }

  /** The true outcome of each child, as the store shows it at one moment. */
  function Truth(w: World, ids: seq<string>, t: nat): (r: seq<Reading>)
    ensures |r| == |ids|
  {
    seq(|ids|, i requires 0 <= i < |ids| => Read(w(t), ids[i]))
  }

  lemma PollIsTruth(w: World, ids: seq<string>, q: nat, t: nat)
    requires Advancing(w) && Done(Poll(w, ids, q)) && t >= ReadTime(ids, q) + |ids|
    ensures Poll(w, ids, q) == Truth(w, ids, t)
  {
    var rs := Poll(w, ids, q);
    DoneIff(rs);
    forall i | 0 <= i < |ids| ensures rs[i] == Truth(w, ids, t)[i] {
      ReadingsAdvance(w, ids, ReadTime(ids, q), t, i);
    }
  }

  /** A verdict agrees with the jobs: it is the verdict over their states at the moment it is
      written and at every later one, although they were read one by one while running. */
  lemma VerdictIsTrue(reports: nat -> Report, w: World, ids: seq<string>, devices: seq<string>, t: nat)
    requires Advancing(w) && Describes(reports, w, ids, devices) && LastPoll(reports, 0) < POLLS
    requires t >= ReadTime(ids, LastPoll(reports, 0)) + |ids|
    ensures Final(reports) == Verdict(Truth(w, ids, t), devices)
    ensures AllSettled(Truth(w, ids, t))
  {
    var q := LastPoll(reports, 0);
    assert Observes(reports, w, ids, devices, q);
    PollIsTruth(w, ids, q, t);
    DoneIff(Poll(w, ids, q));
  }

  /** The children that the store shows settled at one moment. */
  function SettledNow(w: World, ids: seq<string>, t: nat): set<nat> {
    set i: nat | i < |ids| && ids[i] in w(t) && Settled(w(t)[ids[i]].status)
  }

  lemma SubsetSize(a: set<nat>, b: set<nat>)
    requires a <= b
    ensures |a| <= |b|
  {
    assert b == a + (b - a);
  }

  lemma CountsBetween(w: World, ids: seq<string>, t: nat)
    requires Advancing(w)
    ensures |SettledNow(w, ids, t)| <= Finished(Snapshot(w, ids, t)) <= |SettledNow(w, ids, t + |ids|)|
  {
    var rs := Snapshot(w, ids, t);
    FinishedIsSettled(rs);
    forall i: nat | i in SettledNow(w, ids, t) ensures i in SettledPlaces(rs, |rs|) {
      AdvancesOver(w, t, t + i);
    }
    forall i: nat | i in SettledPlaces(rs, |rs|) ensures i in SettledNow(w, ids, t + |ids|) {
      ReadingsAdvance(w, ids, t, t + |ids|, i);
    }
    SubsetSize(SettledNow(w, ids, t), SettledPlaces(rs, |rs|));
    SubsetSize(SettledPlaces(rs, |rs|), SettledNow(w, ids, t + |ids|));
  }

  /** n lies between how many were settled when poll p started and how many when it published. */
  predicate TrueAt(w: World, ids: seq<string>, p: nat, n: nat) {
    var t := ReadTime(ids, p);
    |SettledNow(w, ids, t)| <= n <= |SettledNow(w, ids, t + |ids|)|
  }

  lemma FinishedIsTrue(reports: nat -> Report, w: World, ids: seq<string>, devices: seq<string>, p: nat)
    requires Advancing(w) && Observes(reports, w, ids, devices, p)
    ensures TrueAt(w, ids, p, reports(p).finished)
  {
    CountsBetween(w, ids, ReadTime(ids, p));
  }

  lemma TrailAt(reports: nat -> Report, total: nat, i: nat)
    requires i + 1 < |Trail(reports, total)|
    ensures Trail(reports, total)[i] == SwarmRunning(if i == 0 then 0 else reports(i - 1).finished, total)
  {
    assert Trail(reports, total)[i] == ProgressAt(reports, total, i);
  }

  /** The published numbers are true, although the children are read one by one: the first report says none, and
      each later one lies between how many were settled when its poll started and how many when it published. */
  lemma ProgressIsTrue(reports: nat -> Report, w: World, ids: seq<string>, devices: seq<string>, p: nat)
    requires Advancing(w) && Describes(reports, w, ids, devices) && p + 2 < |Trail(reports, |ids|)|
    ensures Trail(reports, |ids|)[0] == SwarmRunning(0, |ids|)
    ensures var r := Trail(reports, |ids|)[p + 1];
            r.SwarmRunning? && r.total == |ids| && TrueAt(w, ids, p, r.completed)
  {
    TrailAt(reports, |ids|, 0);
    TrailAt(reports, |ids|, p + 1);
    assert Observes(reports, w, ids, devices, p);
    FinishedIsTrue(reports, w, ids, devices, p);
  }

  /** A verdict puts every child in exactly one place, in order: completed children are listed by
      twin, the others by device, and which kind of verdict it is says which lists are empty. */
  lemma VerdictPartitions(rs: seq<Reading>, devices: seq<string>, i: nat)
    requires i < |rs|
    ensures var done, rest := Places(rs, |rs|, true), Places(rs, |rs|, false);
            && Ascending(done) && Ascending(rest)
            && (i in done) != (i in rest) && (i in done <==> IsCompleted(rs[i]))
            && match Verdict(rs, devices)
               case SwarmCompleted(twins, receipts) =>
                 twins == TwinIds(rs) && receipts == ReceiptIds(rs) && |twins| == |receipts| == |rs| && rest == []
               case SwarmPartiallyFailed(twins, failed) =>
                 && twins == TwinIds(rs) && failed == FailedDevices(rs, devices)
                 && |twins| == |done| > 0 && |failed| == |rest| > 0 && |twins| + |failed| == |rs|
               case SwarmFailed(reason) => reason == "all " + Decimal(|rs|) + " devices failed" && done == []
               case _ => false
  {
    PlacesAre(rs, |rs|, true, i);
    PlacesAre(rs, |rs|, false, i);
    PlacesAscend(rs, |rs|, true);
    PlacesAscend(rs, |rs|, false);
    ListLengths(rs, devices, |rs|);
  }
}
