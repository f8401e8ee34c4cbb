/** The receipt chain of the emission ledger: what its tip commits to. */
module EmissionChain {
  import opened Wire
  import opened Emission
  import opened EmissionRuns

  /** The records that advance the chain: those of the non-Sabbath minutes, in order. */
  function ChainedRecords(h: HashFn, w: nat -> real, run: seq<Minute>): seq<MinuteAllocation>
    requires PositiveWeight(w)
  {
    if run == [] then []
    else
      var n := |run| - 1;
      var front := ChainedRecords(h, w, run[..n]);
      if IsSabbath(run[n].timestampUtc) then front else front + [Record(h, w, run, n)]
  }

  function FoldReceipts(h: HashFn, start: Hash, records: seq<MinuteAllocation>): Hash {
    if records == [] then start
    else ReceiptHash(h, FoldReceipts(h, start, records[..|records| - 1]), records[|records| - 1])
  }

  lemma {:induction false} TipIsFold(h: HashFn, w: nat -> real, run: seq<Minute>)
    requires PositiveWeight(w)
    ensures After(h, w, run).tip == FoldReceipts(h, GENESIS_CHAIN_HASH, ChainedRecords(h, w, run))
  {
    if run != [] {
      TipIsFold(h, w, run[..|run| - 1]);
    }
  }

  // ----- reading a receipt message

  predicate SameBodies(a: seq<MinuteAllocation>, b: seq<MinuteAllocation>)
    requires |a| == |b|
  {
    forall i :: 0 <= i < |a| ==> ReceiptBody(a[i]) == ReceiptBody(b[i])
  }

  lemma MessageParts(p: Hash, a: MinuteAllocation, q: Hash, b: MinuteAllocation)
    ensures ReceiptMessage(p, a) == ReceiptMessage(q, b) <==> p == q && ReceiptBody(a) == ReceiptBody(b)
  {
    assert ReceiptMessage(p, a)[..32] == p && ReceiptMessage(p, a)[32..] == ReceiptBody(a);
    assert ReceiptMessage(q, b)[..32] == q && ReceiptMessage(q, b)[32..] == ReceiptBody(b);
  }

  /** A receipt body fixes the minute, the total and the worker byte string. */
  lemma BodyParts(a: MinuteAllocation, b: MinuteAllocation)
    requires ReceiptBody(a) == ReceiptBody(b)
    ensures a.epochMinute == b.epochMinute && a.totalMicroAse == b.totalMicroAse
    ensures WorkerBytes(a.workers) == WorkerBytes(b.workers)
  {
    var x, y := ReceiptBody(a), ReceiptBody(b);
    assert x[..8] == LeU64(a.epochMinute) && x[8..16] == LeU64(a.totalMicroAse) && x[16..] == WorkerBytes(a.workers);
    assert y[..8] == LeU64(b.epochMinute) && y[8..16] == LeU64(b.totalMicroAse) && y[16..] == WorkerBytes(b.workers);
    LeU64Injective(a.epochMinute, b.epochMinute);
    LeU64Injective(a.totalMicroAse, b.totalMicroAse);
  }

  /** Byte i of a number of eight bytes, least significant first. */
  predicate IsByteOf(b: Byte, n: U64, i: nat) {
    b as int == n / Pow256(i) % 256
  }

  /** What is hashed, byte for byte: the old tip, the minute and the total as eight bytes each, then the workers. */
  lemma MessageLayout(prev: Hash, a: MinuteAllocation, i: nat)
    requires i < 8
    ensures var m := ReceiptMessage(prev, a);
            && |m| >= 48 && m[..32] == prev && m[48..] == WorkerBytes(a.workers)
            && IsByteOf(m[32 + i], a.epochMinute, i) && IsByteOf(m[40 + i], a.totalMicroAse, i)
  {
    var m := ReceiptMessage(prev, a);
    assert m[32..40] == LeU64(a.epochMinute) && m[40..48] == LeU64(a.totalMicroAse);
    assert m[32..40][i] == m[32 + i] && m[40..48][i] == m[40 + i];
    LittleEndianAt(a.epochMinute, 8, i);
    LittleEndianAt(a.totalMicroAse, 8, i);
  }

  /** Where worker k starts. */
  function WorkerOffset(ws: seq<WorkerAllocation>, k: nat): nat
    requires k <= |ws|
  {
    if k == 0 then 0 else WorkerOffset(ws[1..], k - 1) + |ws[0].workerDid| + 8
  }

  lemma BytesStart(ws: seq<WorkerAllocation>, i: nat)
    requires ws != [] && i < 8
    ensures var b, n := WorkerBytes(ws), |ws[0].workerDid|;
            && n + 8 <= |b| && b[..n] == ws[0].workerDid && b[n + 8..] == WorkerBytes(ws[1..])
            && IsByteOf(b[n + i], ws[0].microAse, i)
  {
    var b, n := WorkerBytes(ws), |ws[0].workerDid|;
    assert b[n..n + 8] == LeU64(ws[0].microAse);
    assert b[n + i] == b[n..n + 8][i];
    LittleEndianAt(ws[0].microAse, 8, i);
  }

  /** Each worker's DID stands at its offset, and right after it the amount in eight bytes. */
  lemma {:induction false} WorkerLayout(ws: seq<WorkerAllocation>, k: nat, i: nat)
    requires k < |ws| && i < 8
    ensures var at, b := WorkerOffset(ws, k), WorkerBytes(ws);
            var end := at + |ws[k].workerDid|;
            end + 8 <= |b| && b[at..end] == ws[k].workerDid && IsByteOf(b[end + i], ws[k].microAse, i)
  {
    BytesStart(ws, i);
    if k > 0 {
      var rest, b, n := ws[1..], WorkerBytes(ws), |ws[0].workerDid| + 8;
      WorkerLayout(rest, k - 1, i);
      var at, end := WorkerOffset(rest, k - 1), WorkerOffset(rest, k - 1) + |ws[k].workerDid|;
      assert b[n + at..n + end] == b[n..][at..end];
      assert b[n + end + i] == b[n..][end + i];
    }
  }

  /** And nothing else is hashed of the workers. */
  lemma {:induction false} WorkersEnd(ws: seq<WorkerAllocation>)
    ensures |WorkerBytes(ws)| == WorkerOffset(ws, |ws|)
  {
    if ws != [] {
      WorkersEnd(ws[1..]);
    }
  }

  // ----- the tip binds the records

  /** What two different chains with one tip give away: two messages with one hash, or a message whose
      hash is the value that every chain starts from. */
  datatype Flaw = NoFlaw | Collision(pair: (Bytes, Bytes)) | ReachesStart(message: Bytes)

  predicate Genuine(h: HashFn, start: Hash, flaw: Flaw) {
    match flaw
    case NoFlaw => true
    case Collision(pair) => Collides(h, pair)
    case ReachesStart(message) => h(message) == start
  }

  /** What the last step of a chain hashes. */
  function LastMessage(h: HashFn, start: Hash, records: seq<MinuteAllocation>): Bytes
    requires records != []
  {
    var n := |records| - 1;
    ReceiptMessage(FoldReceipts(h, start, records[..n]), records[n])
  }

  /** Walks two chains back from their tips to the first pair of messages that differ, or to the point
      where one chain has ended and the other has not. */
  function FindFlaw(h: HashFn, start: Hash, a: seq<MinuteAllocation>, b: seq<MinuteAllocation>): Flaw {
    if a == [] && b == [] then NoFlaw
    else if a == [] then ReachesStart(LastMessage(h, start, b))
    else if b == [] then ReachesStart(LastMessage(h, start, a))
    else
      var x, y := LastMessage(h, start, a), LastMessage(h, start, b);
      if x != y then Collision((x, y)) else FindFlaw(h, start, a[..|a| - 1], b[..|b| - 1])
  }

  lemma SameBodiesLast(a: seq<MinuteAllocation>, b: seq<MinuteAllocation>)
    requires |a| == |b| > 0
    ensures var n := |a| - 1;
            SameBodies(a, b) <==> SameBodies(a[..n], b[..n]) && ReceiptBody(a[n]) == ReceiptBody(b[n])
  {
    var n := |a| - 1;
    assert forall i :: 0 <= i < n ==> a[..n][i] == a[i] && b[..n][i] == b[i];
  }

  predicate SameChain(a: seq<MinuteAllocation>, b: seq<MinuteAllocation>) {
    |a| == |b| && SameBodies(a, b)
  }

  lemma {:induction false} SameBodiesFold(h: HashFn, start: Hash, a: seq<MinuteAllocation>, b: seq<MinuteAllocation>)
    requires |a| == |b| && SameBodies(a, b)
    ensures FoldReceipts(h, start, a) == FoldReceipts(h, start, b)
  {
    if a != [] {
      var n := |a| - 1;
      SameBodiesFold(h, start, a[..n], b[..n]);
    }
  }

  /** Chains of any two lengths that end in one tip have the same bodies, or the walk finds a genuine
      flaw of the hash; and it finds none exactly when the bodies are the same. */
  lemma {:induction false} FoldBinds(h: HashFn, start: Hash, a: seq<MinuteAllocation>, b: seq<MinuteAllocation>)
    requires FoldReceipts(h, start, a) == FoldReceipts(h, start, b)
    ensures FindFlaw(h, start, a, b) == NoFlaw <==> SameChain(a, b)
    ensures Genuine(h, start, FindFlaw(h, start, a, b))
  {
    if a != [] && b != [] {
      var m, n := |a| - 1, |b| - 1;
      MessageParts(FoldReceipts(h, start, a[..m]), a[m], FoldReceipts(h, start, b[..n]), b[n]);
      if |a| == |b| {
        SameBodiesLast(a, b);
        if SameBodies(a[..m], b[..n]) {
          SameBodiesFold(h, start, a[..m], b[..n]);
        }
      }
      if LastMessage(h, start, a) == LastMessage(h, start, b) {
        FoldBinds(h, start, a[..m], b[..n]);
      }
    }
  }

  /** Two chained records of real runs that agree on what the tip binds. */
  predicate Agree(a: MinuteAllocation, b: MinuteAllocation) {
    && a.epochMinute == b.epochMinute
    && a.totalMicroAse == b.totalMicroAse
    && WorkerBytes(a.workers) == WorkerBytes(b.workers)
    && a.inheritanceFallback == b.inheritanceFallback
    && a.microAsePerWallet == b.microAsePerWallet
  }

  /** The fallback flag is not hashed, but in a recorded minute it says that nobody was paid. */
  predicate WellRecorded(a: MinuteAllocation) {
    && a.inheritanceFallback == (a.workers == [])
    && a.microAsePerWallet == (if a.workers == [] then 694 else 0)
  }

  lemma {:induction false} ChainedWellRecorded(h: HashFn, w: nat -> real, run: seq<Minute>)
    requires PositiveWeight(w)
    ensures forall i :: 0 <= i < |ChainedRecords(h, w, run)| ==> WellRecorded(ChainedRecords(h, w, run)[i])
  {
    if run != [] {
      ChainedWellRecorded(h, w, run[..|run| - 1]);
    }
  }

  lemma NoWorkersNoBytes(ws: seq<WorkerAllocation>)
    ensures WorkerBytes(ws) == [] <==> ws == []
  {
  }

  predicate AllAgree(a: seq<MinuteAllocation>, b: seq<MinuteAllocation>) {
    |a| == |b| && forall i :: 0 <= i < |a| ==> Agree(a[i], b[i])
  }

  /** Any two runs that end in one tip chain equally many minutes and agree on every one of them, or
      walking the chains back yields a hash collision or a message that hashes to the genesis tip. */
  lemma TipBinds(h: HashFn, w: nat -> real, run: seq<Minute>, run': seq<Minute>)
    requires PositiveWeight(w)
    requires After(h, w, run).tip == After(h, w, run').tip
    ensures var a, b := ChainedRecords(h, w, run), ChainedRecords(h, w, run');
            var flaw := FindFlaw(h, GENESIS_CHAIN_HASH, a, b);
            Genuine(h, GENESIS_CHAIN_HASH, flaw) && (flaw == NoFlaw ==> AllAgree(a, b))
  {
    var a, b := ChainedRecords(h, w, run), ChainedRecords(h, w, run');
    TipIsFold(h, w, run);
    TipIsFold(h, w, run');
    FoldBinds(h, GENESIS_CHAIN_HASH, a, b);
    ChainedWellRecorded(h, w, run);
    ChainedWellRecorded(h, w, run');
    if SameChain(a, b) {
      forall i | 0 <= i < |a| ensures Agree(a[i], b[i]) {
        BodyParts(a[i], b[i]);
        NoWorkersNoBytes(a[i].workers);
        NoWorkersNoBytes(b[i].workers);
      }
    }
  }

  // ----- reading the workers back out of their byte string

  datatype Payment = Payment(did: Bytes, microAse: U64)

  /** Who was paid what, in order. */
  function Payments(ws: seq<WorkerAllocation>): (r: seq<Payment>)
    ensures |r| == |ws|
  {
    if ws == [] then [] else [Payment(ws[0].workerDid, ws[0].microAse)] + Payments(ws[1..])
  }

  predicate DidLengthsIn(ws: seq<WorkerAllocation>, lengths: set<nat>) {
    forall i :: 0 <= i < |ws| ==> |ws[i].workerDid| in lengths
  }

  lemma {:induction false} OneLengthReadable(ws: seq<WorkerAllocation>, ws': seq<WorkerAllocation>, length: nat)
    requires DidLengthsIn(ws, {length}) && DidLengthsIn(ws', {length})
    requires WorkerBytes(ws) == WorkerBytes(ws')
    ensures Payments(ws) == Payments(ws')
  {
    NoWorkersNoBytes(ws);
    NoWorkersNoBytes(ws');
    if ws != [] {
      var a, b, n := ws[0], ws'[0], length;
      var x, y := WorkerBytes(ws), WorkerBytes(ws');
      assert |a.workerDid| == n && |b.workerDid| == n;
      assert x[..n] == a.workerDid && x[n..n + 8] == LeU64(a.microAse) && x[n + 8..] == WorkerBytes(ws[1..]);
      assert y[..n] == b.workerDid && y[n..n + 8] == LeU64(b.microAse) && y[n + 8..] == WorkerBytes(ws'[1..]);
      LeU64Injective(a.microAse, b.microAse);
      OneLengthReadable(ws[1..], ws'[1..], length);
    }
  }

  lemma {:induction false} LeZero(width: nat)
    ensures LittleEndian(0, width) == Zeros(width)
  {
    if width > 0 {
      LeZero(width - 1);
    }
  }

  predicate AllOfLength(records: seq<MinuteAllocation>, length: nat) {
    forall i :: 0 <= i < |records| ==> DidLengthsIn(records[i].workers, {length})
  }

  /** With DIDs of one length the tip also fixes every worker and amount. */
  lemma TipBindsPayments(h: HashFn, w: nat -> real, run: seq<Minute>, run': seq<Minute>, length: nat)
    requires PositiveWeight(w)
    requires After(h, w, run).tip == After(h, w, run').tip
    requires AllOfLength(ChainedRecords(h, w, run), length) && AllOfLength(ChainedRecords(h, w, run'), length)
    ensures var a, b := ChainedRecords(h, w, run), ChainedRecords(h, w, run');
            var flaw := FindFlaw(h, GENESIS_CHAIN_HASH, a, b);
            && Genuine(h, GENESIS_CHAIN_HASH, flaw)
            && (flaw == NoFlaw ==>
                |a| == |b| && forall i :: 0 <= i < |a| ==> Payments(a[i].workers) == Payments(b[i].workers))
  {
    var a, b := ChainedRecords(h, w, run), ChainedRecords(h, w, run');
    TipBinds(h, w, run, run');
    if FindFlaw(h, GENESIS_CHAIN_HASH, a, b) == NoFlaw {
      forall i | 0 <= i < |a| ensures Payments(a[i].workers) == Payments(b[i].workers) {
        assert Agree(a[i], b[i]);
        OneLengthReadable(a[i].workers, b[i].workers, length);
      }
    }
  }

  // ----- which lists of recorded workers can be read back

  /** A claim of a crowd: the i-th one, with its own trajectory and the least score that passes. */
  function CrowdClaim(length: nat, i: nat): ProofClaim {
    ProofClaim([], Zeros(length), 1, 0, LittleEndian(i, 32), CROWD_F1, CROWD_F1, Zeros(32))
  }

  const CROWD_F1: real := 0.777

  function CrowdClaims(length: nat, n: nat): (claims: seq<ProofClaim>)
    ensures |claims| == n
  {
    seq(n, i requires 0 <= i < n => CrowdClaim(length, i))
  }

  /** n equal claims: when they are more than a million, each share but the last is nothing. */
  function CrowdMinute(length: nat, n: nat): Minute {
    Minute(0, 0, CrowdClaims(length, n))
  }

  function CrowdScored(length: nat, n: nat): (e: seq<Scored>)
    ensures |e| == n
  {
    seq(n, i requires 0 <= i < n => Scored(CrowdClaim(length, i), CROWD_F1))
  }

  lemma CrowdScore(w: nat -> real, length: nat, i: nat)
    requires w(0) == 1.0
    ensures Passes(GENESIS, GENESIS_DIFFICULTY, CrowdClaim(length, i))
    ensures Score(GENESIS, w, CrowdClaim(length, i)) == Scored(CrowdClaim(length, i), CROWD_F1)
  {
  }

  lemma {:induction false} CrowdEligible(w: nat -> real, length: nat, n: nat)
    requires w(0) == 1.0
    ensures Eligible(GENESIS, w, GENESIS_DIFFICULTY, CrowdClaims(length, n)) == CrowdScored(length, n)
  {
    if n > 0 {
      var claims := CrowdClaims(length, n);
      assert claims[..n - 1] == CrowdClaims(length, n - 1);
      CrowdEligible(w, length, n - 1);
      CrowdScore(w, length, n - 1);
      assert CrowdScored(length, n) == CrowdScored(length, n - 1) + [Score(GENESIS, w, claims[n - 1])];
    }
  }

  lemma CrowdPaid(w: nat -> real, length: nat, n: nat)
    requires w(0) == 1.0
    ensures PaidIn(GENESIS, w, CrowdMinute(length, n)) == CrowdScored(length, n)
  {
    CrowdEligible(w, length, n);
    assert CurrentDifficulty(0) == GENESIS_DIFFICULTY;
  }

  lemma {:induction false} CrowdWeight(length: nat, n: nat)
    ensures TotalWeight(CrowdScored(length, n)) == n as real * CROWD_F1
  {
    if n > 0 {
      CrowdWeight(length, n - 1);
      assert CrowdScored(length, n)[..n - 1] == CrowdScored(length, n - 1);
    }
  }

  /** One of more than a million equal shares of a million is less than one unit. */
  lemma WeakShare(total: real)
    requires total > MICRO_ASE_PER_MINUTE as real * CROWD_F1
    ensures FloorShare(CROWD_F1, total) == 0
  {
    assert CROWD_F1 / total < CROWD_F1 / (1_000_000.0 * CROWD_F1);
  }

  lemma {:induction false} ZeroSum(s: seq<nat>)
    requires forall i :: 0 <= i < |s| ==> s[i] == 0
    ensures Sum(s) == 0
  {
    if s != [] {
      ZeroSum(s[..|s| - 1]);
    }
  }

  lemma CrowdShares(length: nat, n: nat)
    requires n > MICRO_ASE_PER_MINUTE
    ensures Positive(CrowdScored(length, n))
    ensures forall i :: 0 <= i < n - 1 ==> Shares(CrowdScored(length, n))[i] == 0
    ensures Shares(CrowdScored(length, n))[n - 1] == MICRO_ASE_PER_MINUTE
  {
    var e := CrowdScored(length, n);
    CrowdWeight(length, n);
    var s := Shares(e);
    forall i | 0 <= i < n - 1 ensures s[i] == 0 {
      ShareAt(e, i);
      WeakShare(TotalWeight(e));
      assert e[i].weighted == CROWD_F1;
    }
    ZeroSum(s[..n - 1]);
    ShareAt(e, n - 1);
  }

  /** n workers of this DID length, all but the last paid nothing and the last the whole minute. */
  predicate IsCrowd(ws: seq<WorkerAllocation>, length: nat, n: nat) {
    && |ws| == n > 0
    && (forall i :: 0 <= i < n ==> ws[i].workerDid == Zeros(length))
    && (forall i :: 0 <= i < n - 1 ==> ws[i].microAse == 0)
    && ws[n - 1].microAse == MICRO_ASE_PER_MINUTE
  }

  lemma CrowdRecorded(w: nat -> real, length: nat, n: nat)
    requires PositiveWeight(w) && w(0) == 1.0 && n > MICRO_ASE_PER_MINUTE
    ensures IsCrowd(Allocation(GENESIS, w, CrowdMinute(length, n)).workers, length, n)
  {
    var m, e := CrowdMinute(length, n), CrowdScored(length, n);
    CrowdPaid(w, length, n);
    CrowdShares(length, n);
    WorkersOfRecord(GENESIS, w, m);
    assert Allocation(GENESIS, w, m).workers == Workers(e);
    forall i | 0 <= i < n ensures Workers(e)[i].workerDid == Zeros(length) {
      assert e[i].claim.workerDid == Zeros(length);
    }
  }

  lemma ZerosJoin(m: nat, n: nat)
    ensures Zeros(m) + Zeros(n) == Zeros(m + n)
  {
  }

  /** How many zero bytes stand before the last amount. */
  function CrowdZeros(length: nat, n: nat): nat
    requires n > 0
  {
    if n == 1 then length else length + 8 + CrowdZeros(length, n - 1)
  }

  lemma {:induction false} CrowdZerosIs(length: nat, n: nat)
    requires n > 0
    ensures CrowdZeros(length, n) + 8 == n * (length + 8)
  {
    if n > 1 {
      CrowdZerosIs(length, n - 1);
      assert n * (length + 8) == (n - 1) * (length + 8) + (length + 8);
    }
  }

  lemma Commute(k: nat, x: nat, y: nat)
    ensures k * y * x == k * x * y
  {
    assert k * y * x == k * (y * x);
    assert k * x * y == k * (x * y);
  }

  /** For two DID lengths, how many workers to take of each so that the zero bytes are equally many. */
  lemma CrowdSizes(a: nat, b: nat) returns (m: nat, n: nat)
    requires a != b
    ensures m > MICRO_ASE_PER_MINUTE && n > MICRO_ASE_PER_MINUTE && m != n
    ensures CrowdZeros(a, m) == CrowdZeros(b, n)
  {
    var k, x, y := MICRO_ASE_PER_MINUTE + 1, a + 8, b + 8;
    m, n := k * y, k * x;
    CrowdZerosIs(a, m);
    CrowdZerosIs(b, n);
    Commute(k, x, y);
  }

  lemma PrependZeros(length: nat, rest: nat, last: Bytes)
    ensures Zeros(length) + LeU64(0) + (Zeros(rest) + last) == Zeros(length + 8 + rest) + last
  {
    LeZero(8);
    ZerosJoin(length, 8);
    ZerosJoin(length + 8, rest);
  }

  lemma CrowdTail(ws: seq<WorkerAllocation>, length: nat, n: nat)
    requires IsCrowd(ws, length, n) && n > 1
    ensures IsCrowd(ws[1..], length, n - 1)
    ensures WorkerBytes(ws) == Zeros(length) + LeU64(0) + WorkerBytes(ws[1..])
  {
    var tail := ws[1..];
    assert forall i :: 0 <= i < n - 1 ==> tail[i] == ws[i + 1];
  }

  lemma CrowdLast(ws: seq<WorkerAllocation>, length: nat)
    requires IsCrowd(ws, length, 1)
    ensures WorkerBytes(ws) == Zeros(length) + LeU64(MICRO_ASE_PER_MINUTE)
  {
    assert WorkerBytes(ws[1..]) == [];
  }

  /** Zero bytes up to the last amount, however they are divided among the workers. */
  lemma {:induction false} CrowdBytes(ws: seq<WorkerAllocation>, length: nat, n: nat)
    requires IsCrowd(ws, length, n)
    ensures WorkerBytes(ws) == Zeros(CrowdZeros(length, n)) + LeU64(MICRO_ASE_PER_MINUTE)
  {
    if n == 1 {
      CrowdLast(ws, length);
    } else {
      CrowdTail(ws, length, n);
      CrowdBytes(ws[1..], length, n - 1);
      PrependZeros(length, CrowdZeros(length, n - 1), LeU64(MICRO_ASE_PER_MINUTE));
    }
  }

  predicate Clash(ws: seq<WorkerAllocation>, ws': seq<WorkerAllocation>) {
    WorkerBytes(ws) == WorkerBytes(ws') && Payments(ws) != Payments(ws')
  }

  lemma CrowdLengths(ws: seq<WorkerAllocation>, length: nat, n: nat)
    requires IsCrowd(ws, length, n)
    ensures DidLengthsIn(ws, {length})
  {
  }

  lemma CrowdPairClash(ws: seq<WorkerAllocation>, ws': seq<WorkerAllocation>, a: nat, b: nat, m: nat, n: nat)
    requires IsCrowd(ws, a, m) && IsCrowd(ws', b, n) && m != n && CrowdZeros(a, m) == CrowdZeros(b, n)
    ensures Clash(ws, ws') && DidLengthsIn(ws, {a}) && DidLengthsIn(ws', {b})
  {
    CrowdBytes(ws, a, m);
    CrowdBytes(ws', b, n);
    CrowdLengths(ws, a, m);
    CrowdLengths(ws', b, n);
    assert |Payments(ws)| != |Payments(ws')|;
  }

  /** A minute from genesis that records a crowd. */
  lemma CrowdExists(w: nat -> real, length: nat, n: nat) returns (m: Minute)
    requires PositiveWeight(w) && w(0) == 1.0 && n > MICRO_ASE_PER_MINUTE
    ensures m.epochMinute == m.timestampUtc == 0 && IsCrowd(Allocation(GENESIS, w, m).workers, length, n)
    ensures forall c :: c in m.claims ==> c.f1Score == CROWD_F1
  {
    m := CrowdMinute(length, n);
    CrowdRecorded(w, length, n);
  }

  /** Two DID lengths, two minutes that the ledger records with the same bytes and different payments. */
  lemma CrowdsClash(w: nat -> real, a: nat, b: nat) returns (m: Minute, m': Minute)
    requires PositiveWeight(w) && w(0) == 1.0 && a != b
    ensures m.epochMinute == m.timestampUtc == m'.epochMinute == m'.timestampUtc == 0
    ensures forall c :: c in m.claims || c in m'.claims ==> c.f1Score == CROWD_F1
    ensures DidLengthsIn(Allocation(GENESIS, w, m).workers, {a})
    ensures DidLengthsIn(Allocation(GENESIS, w, m').workers, {b})
    ensures Clash(Allocation(GENESIS, w, m).workers, Allocation(GENESIS, w, m').workers)
  {
    var x, y := CrowdSizes(a, b);
    m := CrowdExists(w, a, x);
    m' := CrowdExists(w, b, y);
    CrowdPairClash(Allocation(GENESIS, w, m).workers, Allocation(GENESIS, w, m').workers, a, b, x, y);
  }

  lemma OneMinuteTip(h: HashFn, w: nat -> real, m: Minute)
    requires PositiveWeight(w) && !IsSabbath(m.timestampUtc)
    ensures After(h, w, [m]).tip == h(GENESIS_CHAIN_HASH + ReceiptBody(Allocation(GENESIS, w, m)))
    ensures Record(h, w, [m], 0) == Allocation(GENESIS, w, m)
  {
    assert [m][..0] == [];
  }

  lemma SameMinuteBody(w: nat -> real, m: Minute, m': Minute)
    requires PositiveWeight(w) && m.epochMinute == m'.epochMinute && m.timestampUtc == m'.timestampUtc
    requires WorkerBytes(Allocation(GENESIS, w, m).workers) == WorkerBytes(Allocation(GENESIS, w, m').workers)
    ensures ReceiptBody(Allocation(GENESIS, w, m)) == ReceiptBody(Allocation(GENESIS, w, m'))
  {
  }

  /** For every two DID lengths and every hash: two one-minute runs that pay different workers, one with
      DIDs of each length, and end in one tip. All their claims have the score 0.777. */
  lemma TwoLengthsOneTip(h: HashFn, w: nat -> real, a: nat, b: nat) returns (m: Minute, m': Minute)
    requires PositiveWeight(w) && w(0) == 1.0 && a != b
    ensures forall c :: c in m.claims || c in m'.claims ==> c.f1Score == CROWD_F1
    ensures DidLengthsIn(Record(h, w, [m], 0).workers, {a}) && DidLengthsIn(Record(h, w, [m'], 0).workers, {b})
    ensures Payments(Record(h, w, [m], 0).workers) != Payments(Record(h, w, [m'], 0).workers)
    ensures After(h, w, [m]).tip == After(h, w, [m']).tip
  {
    m, m' := CrowdsClash(w, a, b);
    OneMinuteTip(h, w, m);
    OneMinuteTip(h, w, m');
    SameMinuteBody(w, m, m');
  }

  predicate ReadableFrom(ws: seq<WorkerAllocation>, ws': seq<WorkerAllocation>, lengths: set<nat>) {
    DidLengthsIn(ws, lengths) && DidLengthsIn(ws', lengths) && WorkerBytes(ws) == WorkerBytes(ws')
    ==> Payments(ws) == Payments(ws')
  }

  /** Minutes whose workers have DIDs of these lengths can be read back from their worker bytes. */
  ghost predicate Readable(w: nat -> real, lengths: set<nat>)
    requires PositiveWeight(w)
  {
    forall l: Ledger, m: Minute, l': Ledger, m': Minute ::
      ReadableFrom(Allocation(l, w, m).workers, Allocation(l', w, m').workers, lengths)
  }

  lemma OneLengthAny(ws: seq<WorkerAllocation>, ws': seq<WorkerAllocation>, lengths: set<nat>)
    requires forall a, b :: a in lengths && b in lengths ==> a == b
    ensures ReadableFrom(ws, ws', lengths)
  {
    NoWorkersNoBytes(ws);
    NoWorkersNoBytes(ws');
    if ws != [] && DidLengthsIn(ws, lengths) && DidLengthsIn(ws', lengths) && WorkerBytes(ws) == WorkerBytes(ws') {
      OneLengthReadable(ws, ws', |ws[0].workerDid|);
    }
  }

  /** The worker byte string carries no lengths. Who was paid what in a recorded minute can be read back
      from it exactly when all DIDs have one length; and with one length that is so for any list. */
  lemma ReadableIffOneLength(w: nat -> real, lengths: set<nat>)
    requires PositiveWeight(w) && w(0) == 1.0
    ensures Readable(w, lengths) <==> forall a, b :: a in lengths && b in lengths ==> a == b
  {
    if a, b :| a in lengths && b in lengths && a != b {
      var m, m' := CrowdsClash(w, a, b);
      assert !ReadableFrom(Allocation(GENESIS, w, m).workers, Allocation(GENESIS, w, m').workers, lengths);
    } else {
      forall l: Ledger, m: Minute, l': Ledger, m': Minute
        ensures ReadableFrom(Allocation(l, w, m).workers, Allocation(l', w, m').workers, lengths)
      {
        OneLengthAny(Allocation(l, w, m).workers, Allocation(l', w, m').workers, lengths);
      }
    }
  }

  // ----- with DIDs of different lengths the tip does not fix the payments

  function TwoClaims(did: Bytes, f1: real, did': Bytes, f1': real): Minute {
    Minute(0, 0, [ProofClaim([1], did, 1, 0, seq(32, _ => 1), f1, f1, Zeros(32)),
                  ProofClaim([2], did', 1, 0, seq(32, _ => 2), f1', f1', Zeros(32))])
  }

  lemma TwoEligible(w: nat -> real, did: Bytes, f1: real, did': Bytes, f1': real)
    requires w(0) == 1.0 && f1 >= GENESIS_DIFFICULTY && f1' >= GENESIS_DIFFICULTY
    ensures var claims := TwoClaims(did, f1, did', f1').claims;
            Eligible(GENESIS, w, GENESIS_DIFFICULTY, claims) == [Scored(claims[0], f1), Scored(claims[1], f1')]
  {
    var claims := TwoClaims(did, f1, did', f1').claims;
    var front := claims[..1];
    assert front == [claims[0]] && front[..0] == [];
    assert Score(GENESIS, w, claims[0]) == Scored(claims[0], f1);
    assert Score(GENESIS, w, claims[1]) == Scored(claims[1], f1');
    assert Eligible(GENESIS, w, GENESIS_DIFFICULTY, front) == [Scored(claims[0], f1)];
  }

  lemma TwoWeights(e: seq<Scored>)
    requires |e| == 2
    ensures TotalWeight(e) == e[0].weighted + e[1].weighted
  {
    assert e[..1][..0] == [];
    assert TotalWeight(e[..1]) == e[0].weighted;
  }

  lemma TwoShares(e: seq<Scored>)
    requires |e| == 2 && Positive(e)
    ensures TotalWeight(e) == e[0].weighted + e[1].weighted > 0.0
    ensures var s := FloorShare(e[0].weighted, e[0].weighted + e[1].weighted);
            s <= MICRO_ASE_PER_MINUTE && Shares(e) == [s, MICRO_ASE_PER_MINUTE - s]
  {
    TwoWeights(e);
    var s := FloorShare(e[0].weighted, TotalWeight(e));
    var floors := FloorShares(e[..1], TotalWeight(e));
    assert floors == [] + [s];
    SumAppend([], s);
    ShareAt(e, 0);
    assert Shares(e)[0] == s;
  }

  lemma TwoClaimsPaid(w: nat -> real, did: Bytes, f1: real, did': Bytes, f1': real)
    requires PositiveWeight(w) && w(0) == 1.0
    requires f1 >= GENESIS_DIFFICULTY && f1' >= GENESIS_DIFFICULTY
    ensures var s := FloorShare(f1, f1 + f1');
            && s <= MICRO_ASE_PER_MINUTE
            && Allocation(GENESIS, w, TwoClaims(did, f1, did', f1')).workers
               == [WorkerAllocation(did, [1], s, f1), WorkerAllocation(did', [2], MICRO_ASE_PER_MINUTE - s, f1')]
  {
    var m := TwoClaims(did, f1, did', f1');
    TwoEligible(w, did, f1, did', f1');
    assert CurrentDifficulty(0) == GENESIS_DIFFICULTY;
    var e := Eligible(GENESIS, w, GENESIS_DIFFICULTY, m.claims);
    assert e == PaidIn(GENESIS, w, m);
    TwoShares(e);
    WorkersOfRecord(GENESIS, w, m);
  }

  const DID_A: Bytes := [0x64, 0x69, 0x64, 0x3a, 0x61]
  const DID_B: Bytes := [0x64, 0x69, 0x64, 0x3a, 0x62]
  const DID_C: Bytes := [0x64, 0x69, 0x64, 0x3a, 0x63]
  const FIRST_SHARE: U64 := 467_008

  function SplitMinute(did: Bytes, did': Bytes): Minute {
    TwoClaims(did, 0.7939136, did', 0.9060864)
  }

  lemma TwoWorkerBytes(ws: seq<WorkerAllocation>)
    requires |ws| == 2
    ensures WorkerBytes(ws)
         == ws[0].workerDid + LeU64(ws[0].microAse) + (ws[1].workerDid + LeU64(ws[1].microAse))
    ensures Payments(ws)[0] == Payment(ws[0].workerDid, ws[0].microAse)
  {
    assert ws[1..][1..] == [];
    assert WorkerBytes(ws[1..]) == ws[1].workerDid + LeU64(ws[1].microAse);
  }

  lemma SplitMinuteBytes(w: nat -> real, did: Bytes, did': Bytes)
    requires PositiveWeight(w) && w(0) == 1.0
    ensures var ws := Allocation(GENESIS, w, SplitMinute(did, did')).workers;
            && WorkerBytes(ws) == did + LeU64(FIRST_SHARE) + (did' + LeU64(532_992))
            && ws != [] && Payments(ws)[0].did == did
  {
    TwoClaimsPaid(w, did, 0.7939136, did', 0.9060864);
    assert 0.7939136 + 0.9060864 == 1.7;
    assert ExactShare(0.7939136, 1.7) == 467008.0;
    assert FloorShare(0.7939136, 1.7) == FIRST_SHARE;
    TwoWorkerBytes(Allocation(GENESIS, w, SplitMinute(did, did')).workers);
  }

  lemma SameBytes(a: Bytes, x: Bytes, b: Bytes, c: Bytes, y: Bytes)
    ensures a + x + ((b + x + c) + y) == (a + x + b) + x + (c + y)
  {
  }

  /** Whatever the hash: two one-minute runs that pay different workers and end in one tip. In
      both the scores split the minute 467,008 to 532,992; the bytes of the first amount and the
      neighbouring DID move between the two names. */
  lemma TipAllowsTwoReadings(h: HashFn, w: nat -> real)
    requires PositiveWeight(w) && w(0) == 1.0
    ensures var run := [SplitMinute(DID_A, DID_B + LeU64(FIRST_SHARE) + DID_C)];
            var run' := [SplitMinute(DID_A + LeU64(FIRST_SHARE) + DID_B, DID_C)];
            && Payments(Record(h, w, run, 0).workers) != Payments(Record(h, w, run', 0).workers)
            && After(h, w, run).tip == After(h, w, run').tip
  {
    var amount := LeU64(FIRST_SHARE);
    var long, long' := DID_B + amount + DID_C, DID_A + amount + DID_B;
    var m, m' := SplitMinute(DID_A, long), SplitMinute(long', DID_C);
    SplitMinuteBytes(w, DID_A, long);
    SplitMinuteBytes(w, long', DID_C);
    SameBytes(DID_A, amount, DID_B, DID_C, LeU64(532_992));
    OneMinuteTip(h, w, m);
    OneMinuteTip(h, w, m');
    SameMinuteBody(w, m, m');
    assert |DID_A| != |long'|;
  }
}
