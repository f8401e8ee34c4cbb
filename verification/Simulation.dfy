/** twin-protocol/src/simulation.rs and merkle_root: the receipt of a simulation and what its
    commitment binds. */
module Simulation {
  import opened Wire
  import opened Wrappers
  import opened Text
  import opened BTree
  import opened Merkle

  datatype Json = JString(s: string) | JNumber(n: nat)

  function Render(v: Json): string {
    match v
    case JString(s) => JsonString(s)
    case JNumber(n) => Decimal(n)
  }

  function HashStr(h: HashFn, s: string): string {
    "sha256:" + Hex(h(Utf8(s)))
  }

  function LeafMessage(e: Entry<Json>): Bytes {
    Utf8(e.key + ":" + Render(e.value))
  }

  function Messages(fields: seq<Entry<Json>>): (r: seq<Bytes>)
    ensures |r| == |fields|
  {
    seq(|fields|, i requires 0 <= i < |fields| => LeafMessage(fields[i]))
  }

  function Leaves(h: HashFn, messages: seq<Bytes>): (r: seq<Hash>)
    ensures |r| == |messages|
  {
    seq(|messages|, i requires 0 <= i < |messages| => h(messages[i]))
  }

  function MerkleRoot(h: HashFn, fields: seq<Entry<Json>>): string {
    if fields == [] then "sha256:" + Hex(h([]))
    else "sha256:" + Hex(CombineLeaves(h, Leaves(h, Messages(fields))))
  }

  // ----- the commitment of a simulation

  /** What a commitment is computed from; the policies as rendered to JSON. */
  datatype Committed = Committed(
    twinId: string, simEngine: string, robotModel: string, trajectoryCount: U32, policiesJson: string)

  function Fields(h: HashFn, c: Committed): seq<Entry<Json>> {
    var f1 := Insert([], "all_policies_hash", JString(HashStr(h, c.policiesJson)));
    var f2 := Insert(f1, "robot_model", JString(c.robotModel));
    var f3 := Insert(f2, "sim_engine", JString(c.simEngine));
    var f4 := Insert(f3, "trajectory_count", JNumber(c.trajectoryCount));
    Insert(f4, "twin_id", JString(c.twinId))
  }

  function Commitment(h: HashFn, c: Committed): string {
    MerkleRoot(h, Fields(h, c))
  }

  predicate AllBelow<V>(m: seq<Entry<V>>, key: string) {
    forall i :: 0 <= i < |m| ==> Less(m[i].key, key)
  }

  lemma {:induction false} InsertLast<V>(m: seq<Entry<V>>, key: string, value: V)
    requires AllBelow(m, key)
    ensures Insert(m, key, value) == m + [Entry(key, value)]
  {
    if m != [] {
      LessTotal(m[0].key, key);
      InsertLast(m[1..], key, value);
      assert m == [m[0]] + m[1..];
    }
  }

  /** The fields in alphabetical order, as the tree sees them. */
  function OrderedFields(h: HashFn, c: Committed): (r: seq<Entry<Json>>)
    ensures |r| == 5
  {
    [Entry("all_policies_hash", JString(HashStr(h, c.policiesJson))),
     Entry("robot_model", JString(c.robotModel)),
     Entry("sim_engine", JString(c.simEngine)),
     Entry("trajectory_count", JNumber(c.trajectoryCount)),
     Entry("twin_id", JString(c.twinId))]
  }

  lemma KeysAscend()
    ensures Less("all_policies_hash", "robot_model") && Less("robot_model", "sim_engine")
    ensures Less("sim_engine", "trajectory_count") && Less("trajectory_count", "twin_id")
  {
    assert "trajectory_count"[1..][0] == 'r' && "twin_id"[1..][0] == 'w';
  }

  /** A key above the last one is appended, and then is above all. */
  lemma AppendAbove<V>(m: seq<Entry<V>>, key: string, value: V, next: string)
    requires AllBelow(m, key) && Less(key, next)
    ensures Insert(m, key, value) == m + [Entry(key, value)]
    ensures AllBelow(m + [Entry(key, value)], next)
  {
    InsertLast(m, key, value);
    forall i | 0 <= i < |m| ensures Less(m[i].key, next) {
      LessTransitive(m[i].key, key, next);
    }
  }

  function Put<V>(m: seq<Entry<V>>, e: Entry<V>): seq<Entry<V>> {
    Insert(m, e.key, e.value)
  }

  lemma ThreeInOrder<V>(a: Entry<V>, b: Entry<V>, c: Entry<V>, next: string)
    requires Less(a.key, b.key) && Less(b.key, c.key) && Less(c.key, next)
    ensures Put(Put(Put([], a), b), c) == [a, b, c] && AllBelow([a, b, c], next)
  {
    AppendAbove([], a.key, a.value, b.key);
    assert [] + [a] == [a];
    AppendAbove([a], b.key, b.value, c.key);
    assert [a] + [b] == [a, b];
    AppendAbove([a, b], c.key, c.value, next);
    assert [a, b] + [c] == [a, b, c];
  }

  /** Entries put in ascending order stay in that order. */
  lemma FiveInOrder<V>(a: Entry<V>, b: Entry<V>, c: Entry<V>, d: Entry<V>, e: Entry<V>)
    requires Less(a.key, b.key) && Less(b.key, c.key) && Less(c.key, d.key) && Less(d.key, e.key)
    ensures Put(Put(Put(Put(Put([], a), b), c), d), e) == [a, b, c, d, e]
  {
    ThreeInOrder(a, b, c, d.key);
    AppendAbove([a, b, c], d.key, d.value, e.key);
    assert [a, b, c] + [d] == [a, b, c, d];
    InsertLast([a, b, c, d], e.key, e.value);
    assert [a, b, c, d] + [e] == [a, b, c, d, e];
  }

  lemma FieldsInOrder(h: HashFn, c: Committed)
    ensures Fields(h, c) == OrderedFields(h, c)
  {
    KeysAscend();
    var o := OrderedFields(h, c);
    FiveInOrder(o[0], o[1], o[2], o[3], o[4]);
  }

  /** The first place where two lists of hashed messages differ. */
  function FirstDifference(a: seq<Bytes>, b: seq<Bytes>): Option<(Bytes, Bytes)>
    requires |a| == |b|
  {
    if a == [] then None
    else if a[0] != b[0] then Some((a[0], b[0]))
    else FirstDifference(a[1..], b[1..])
  }

  lemma {:induction false} FirstDifferenceCollides(h: HashFn, a: seq<Bytes>, b: seq<Bytes>)
    requires |a| == |b| && Leaves(h, a) == Leaves(h, b)
    ensures FirstDifference(a, b).None? <==> a == b
    ensures FirstDifference(a, b).Some? ==> Collides(h, FirstDifference(a, b).value)
  {
    if a != [] {
      assert a == [a[0]] + a[1..] && b == [b[0]] + b[1..];
      assert Leaves(h, a)[0] == h(a[0]) && Leaves(h, b)[0] == h(b[0]);
      assert Leaves(h, a[1..]) == Leaves(h, a)[1..] && Leaves(h, b[1..]) == Leaves(h, b)[1..];
      FirstDifferenceCollides(h, a[1..], b[1..]);
    }
  }

  /** Looks for a collision in the tree, then among the leaves, then among the policy lists. */
  function FindCommitmentCollision(h: HashFn, c: Committed, c': Committed): Option<(Bytes, Bytes)> {
    var a, b := Messages(OrderedFields(h, c)), Messages(OrderedFields(h, c'));
    var inTree := FindCollision(h, Leaves(h, a), Leaves(h, b));
    var inLeaves := FirstDifference(a, b);
    if inTree.Some? then inTree
    else if inLeaves.Some? then inLeaves
    else FirstDifference([Utf8(c.policiesJson)], [Utf8(c'.policiesJson)])
  }

  lemma PrefixCancels<T>(p: seq<T>, s: seq<T>, t: seq<T>)
    requires p + s == p + t
    ensures s == t
  {
    assert (p + s)[|p|..] == s && (p + t)[|p|..] == t;
  }

  lemma HashStrInjective(h: HashFn, s: string, t: string)
    requires HashStr(h, s) == HashStr(h, t)
    ensures h(Utf8(s)) == h(Utf8(t))
  {
    PrefixCancels("sha256:", Hex(h(Utf8(s))), Hex(h(Utf8(t))));
    HexInjective(h(Utf8(s)), h(Utf8(t)));
  }

  lemma SameLeafValue(key: string, v: Json, v': Json)
    requires LeafMessage(Entry(key, v)) == LeafMessage(Entry(key, v'))
    ensures Render(v) == Render(v')
  {
    Utf8Injective(key + ":" + Render(v), key + ":" + Render(v'));
    PrefixCancels(key + ":", Render(v), Render(v'));
  }

  lemma SameRendering(v: Json, v': Json)
    requires v.JString? == v'.JString? && Render(v) == Render(v')
    ensures v == v'
  {
    if v.JString? {
      JsonStringInjective(v.s, v'.s);
    } else {
      DecimalInjective(v.n, v'.n);
    }
  }

  lemma SameMessagesSameFields(h: HashFn, c: Committed, c': Committed)
    requires Messages(OrderedFields(h, c)) == Messages(OrderedFields(h, c'))
    ensures HashStr(h, c.policiesJson) == HashStr(h, c'.policiesJson)
    ensures c.(policiesJson := "") == c'.(policiesJson := "")
  {
    var f, f' := OrderedFields(h, c), OrderedFields(h, c');
    forall i | 0 <= i < 5 ensures LeafMessage(f[i]) == LeafMessage(f'[i]) {
      assert LeafMessage(f[i]) == Messages(f)[i] && LeafMessage(f'[i]) == Messages(f')[i];
    }
    SameLeafValue(f[0].key, f[0].value, f'[0].value);
    SameLeafValue(f[1].key, f[1].value, f'[1].value);
    SameLeafValue(f[2].key, f[2].value, f'[2].value);
    SameLeafValue(f[3].key, f[3].value, f'[3].value);
    SameLeafValue(f[4].key, f[4].value, f'[4].value);
    SameRendering(f[0].value, f'[0].value);
    SameRendering(f[1].value, f'[1].value);
    SameRendering(f[2].value, f'[2].value);
    SameRendering(f[3].value, f'[3].value);
    SameRendering(f[4].value, f'[4].value);
  }

  lemma RootsEqual(h: HashFn, c: Committed, c': Committed)
    requires Commitment(h, c) == Commitment(h, c')
    ensures CombineLeaves(h, Leaves(h, Messages(OrderedFields(h, c))))
         == CombineLeaves(h, Leaves(h, Messages(OrderedFields(h, c'))))
  {
    FieldsInOrder(h, c);
    FieldsInOrder(h, c');
    var r := CombineLeaves(h, Leaves(h, Messages(OrderedFields(h, c))));
    var r' := CombineLeaves(h, Leaves(h, Messages(OrderedFields(h, c'))));
    PrefixCancels("sha256:", Hex(r), Hex(r'));
    HexInjective(r, r');
  }

  lemma PoliciesBind(h: HashFn, json: string, json': string)
    requires HashStr(h, json) == HashStr(h, json')
    ensures var found := FirstDifference([Utf8(json)], [Utf8(json')]);
            && (found.None? <==> json == json')
            && (found.Some? ==> Collides(h, found.value))
  {
    HashStrInjective(h, json, json');
    var a, b := [Utf8(json)], [Utf8(json')];
    assert Leaves(h, a) == [h(a[0])] && Leaves(h, b) == [h(b[0])];
    FirstDifferenceCollides(h, a, b);
    if a == b {
      assert a[0] == b[0];
      Utf8Injective(json, json');
    }
  }

  /** Equal commitments: the same twin, engine, model, trajectory count and policies, or the
      finder returns a hash collision; and it never reports one when they are the same. */
  lemma CommitmentBinds(h: HashFn, c: Committed, c': Committed)
    requires Commitment(h, c) == Commitment(h, c')
    ensures FindCommitmentCollision(h, c, c').None? <==> c == c'
    ensures FindCommitmentCollision(h, c, c').Some? ==> Collides(h, FindCommitmentCollision(h, c, c').value)
  {
    RootsEqual(h, c, c');
    var a, b := Messages(OrderedFields(h, c)), Messages(OrderedFields(h, c'));
    RootBinds(h, Leaves(h, a), Leaves(h, b));
    if Leaves(h, a) == Leaves(h, b) {
      FirstDifferenceCollides(h, a, b);
      if a == b {
        SameMessagesSameFields(h, c, c');
        PoliciesBind(h, c.policiesJson, c'.policiesJson);
      }
    }
  }

  // ----- the commitment in full

  /** The five texts that are hashed for a commitment. */
  function CommittedTexts(h: HashFn, c: Committed): (r: seq<string>)
    ensures |r| == 5
  {
    ["all_policies_hash:" + ("\"" + ("sha256:" + Hex(h(Utf8(c.policiesJson)))) + "\""),
     "robot_model:" + JsonString(c.robotModel),
     "sim_engine:" + JsonString(c.simEngine),
     "trajectory_count:" + Decimal(c.trajectoryCount),
     "twin_id:" + JsonString(c.twinId)]
  }

  lemma HashStringPlain(h: HashFn, s: string)
    ensures JsonString(HashStr(h, s)) == "\"" + ("sha256:" + Hex(h(Utf8(s)))) + "\""
  {
    var hex := Hex(h(Utf8(s)));
    HexIsPlain(h(Utf8(s)));
    PlainBody("sha256:" + hex);
  }

  lemma KeyAndColon()
    ensures "all_policies_hash" + ":" == "all_policies_hash:" && "robot_model" + ":" == "robot_model:"
    ensures "sim_engine" + ":" == "sim_engine:" && "trajectory_count" + ":" == "trajectory_count:"
    ensures "twin_id" + ":" == "twin_id:"
  {
  }

  lemma MessagesAre(h: HashFn, c: Committed, i: nat)
    requires i < 5
    ensures Messages(OrderedFields(h, c))[i] == Utf8(CommittedTexts(h, c)[i])
  {
    HashStringPlain(h, c.policiesJson);
    KeyAndColon();
  }

  /** Two nodes side by side. */
  function Pair(h: HashFn, left: Hash, right: Hash): Hash {
    h(left + right)
  }

  lemma FiveLeaves(h: HashFn, a: Hash, b: Hash, c: Hash, d: Hash, e: Hash)
    ensures CombineLeaves(h, [a, b, c, d, e]) == Pair(h, Pair(h, Pair(h, a, b), Pair(h, c, d)), e)
  {
    CombineIsBottomUp(h, [a, b, c, d, e]);
    var ab, cd := Pair(h, a, b), Pair(h, c, d);
    var abcd := Pair(h, ab, cd);
    assert [a, b, c, d, e][2..] == [c, d, e] && [c, d, e][2..] == [e];
    assert LevelUp(h, [c, d, e]) == [cd, e];
    assert LevelUp(h, [a, b, c, d, e]) == [ab, cd, e];
    assert [ab, cd, e][2..] == [e];
    assert LevelUp(h, [ab, cd, e]) == [abcd, e];
    assert [abcd, e][2..] == [];
    assert LevelUp(h, [abcd, e]) == [Pair(h, abcd, e)];
    assert BottomUp(h, [abcd, e]) == Pair(h, abcd, e);
    assert BottomUp(h, [ab, cd, e]) == Pair(h, abcd, e);
  }

  lemma LeavesAre(h: HashFn, c: Committed)
    ensures var t := CommittedTexts(h, c);
            Leaves(h, Messages(OrderedFields(h, c)))
            == [h(Utf8(t[0])), h(Utf8(t[1])), h(Utf8(t[2])), h(Utf8(t[3])), h(Utf8(t[4]))]
  {
    forall i | 0 <= i < 5
      ensures Leaves(h, Messages(OrderedFields(h, c)))[i] == h(Utf8(CommittedTexts(h, c)[i]))
    {
      MessagesAre(h, c, i);
    }
  }

  /** The commitment written out: the five texts in this order, hashed, and their hashes hashed in pairs, with the
      fifth joined last. */
  lemma CommitmentIs(h: HashFn, c: Committed)
    ensures var t := CommittedTexts(h, c);
            var left, right := h(h(Utf8(t[0])) + h(Utf8(t[1]))), h(h(Utf8(t[2])) + h(Utf8(t[3])));
            Commitment(h, c) == "sha256:" + Hex(h(h(left + right) + h(Utf8(t[4]))))
  {
    var t := CommittedTexts(h, c);
    FieldsInOrder(h, c);
    LeavesAre(h, c);
    FiveLeaves(h, h(Utf8(t[0])), h(Utf8(t[1])), h(Utf8(t[2])), h(Utf8(t[3])), h(Utf8(t[4])));
  }

  // ----- building a receipt

  datatype SimPolicy = SimPolicy(id: string, energy: real, risk: real, durationS: real, samples: nat)

  datatype Attestation = Attestation(witnessId: string, merkleCommitment: string, timestamp: nat, signature: string)

  datatype Receipt = Receipt(
    receiptId: string, twinId: string, identity: string, simEngine: string, robotModel: string,
    trajectoryCount: U32, allPoliciesHash: string, allPolicies: seq<SimPolicy>, selectedPolicyId: string,
    selectionCriteria: string, merkleCommitment: string, witnessIds: seq<string>,
    witnessSigs: seq<Attestation>, timestamp: nat, signature: string)

  datatype Error =
    | InsufficientPolicies(policies: nat)
    | PolicyNotFound(id: string)
    | InsufficientWitnesses(witnesses: nat)
    | MerkleRootMismatch(expected: string, got: string)
    | Crypto
    | SabbathFreeze

  /** SHA-256, the JSON rendering of a policy list, and Ed25519 signing (None: unusable key). */
  datatype Crypto = Crypto(h: HashFn, policiesJson: seq<SimPolicy> -> string, sign: (string, string) -> Option<string>)

  /** What only the caller or the clock decides about a receipt. */
  datatype Stamp = Stamp(receiptId: string, identity: string, timestamp: nat)

  predicate Contains(policies: seq<SimPolicy>, id: string) {
    exists i :: 0 <= i < |policies| && policies[i].id == id
  }

  function FirstMismatch(witnesses: seq<Attestation>, commitment: string): Option<string> {
    if witnesses == [] then None
    else if witnesses[0].merkleCommitment != commitment then Some(witnesses[0].merkleCommitment)
    else FirstMismatch(witnesses[1..], commitment)
  }

  predicate AllCarry(witnesses: seq<Attestation>, commitment: string) {
    forall i :: 0 <= i < |witnesses| ==> witnesses[i].merkleCommitment == commitment
  }

  lemma {:induction false} NoMismatchIff(witnesses: seq<Attestation>, commitment: string)
    ensures FirstMismatch(witnesses, commitment).None? <==> AllCarry(witnesses, commitment)
  {
    if witnesses != [] {
      NoMismatchIff(witnesses[1..], commitment);
      assert witnesses == [witnesses[0]] + witnesses[1..];
    }
  }

  function WitnessIds(witnesses: seq<Attestation>): (r: seq<string>)
    ensures |r| == |witnesses|
  {
    seq(|witnesses|, i requires 0 <= i < |witnesses| => witnesses[i].witnessId)
  }

  function Build(
    x: Crypto, stamp: Stamp, twinId: string, simEngine: string, robotModel: string, trajectoryCount: U32,
    policies: seq<SimPolicy>, selected: string, criteria: string, witnesses: seq<Attestation>, key: string)
    : Result<Receipt, Error>
  {
    if |policies| < 2 then Err(InsufficientPolicies(|policies|))
    else if !Contains(policies, selected) then Err(PolicyNotFound(selected))
    else if |witnesses| < 2 then Err(InsufficientWitnesses(|witnesses|))
    else
      var json := x.policiesJson(policies);
      var commitment := Commitment(x.h, Committed(twinId, simEngine, robotModel, trajectoryCount, json));
      var mismatch := FirstMismatch(witnesses, commitment);
      if mismatch.Some? then Err(MerkleRootMismatch(commitment, mismatch.value))
      else
        var sig := x.sign(commitment, key);
        if sig.None? then Err(Error.Crypto)
        else Ok(Receipt(stamp.receiptId, twinId, stamp.identity, simEngine, robotModel, trajectoryCount,
                        HashStr(x.h, json), policies, selected, criteria, commitment,
                        WitnessIds(witnesses), witnesses, stamp.timestamp, sig.value))
  }

  /** What the commitment of a receipt should have been computed from. */
  function CommittedOf(x: Crypto, r: Receipt): Committed {
    Committed(r.twinId, r.simEngine, r.robotModel, r.trajectoryCount, x.policiesJson(r.allPolicies))
  }

  /** The promises of the module header, readable off the receipt alone. */
  predicate Sound(x: Crypto, r: Receipt) {
    && |r.allPolicies| >= 2
    && Contains(r.allPolicies, r.selectedPolicyId)
    && |r.witnessSigs| == |r.witnessIds| >= 2
    && AllCarry(r.witnessSigs, r.merkleCommitment)
    && r.merkleCommitment == Commitment(x.h, CommittedOf(x, r))
    && r.allPoliciesHash == HashStr(x.h, x.policiesJson(r.allPolicies))
  }

  /** The receipt says what it was built from, and its signature is one of its commitment. */
  predicate Records(
    x: Crypto, stamp: Stamp, twinId: string, simEngine: string, robotModel: string, trajectoryCount: U32,
    policies: seq<SimPolicy>, selected: string, criteria: string, witnesses: seq<Attestation>, key: string,
    r: Receipt)
  {
    && r.receiptId == stamp.receiptId && r.identity == stamp.identity && r.timestamp == stamp.timestamp
    && r.twinId == twinId && r.simEngine == simEngine && r.robotModel == robotModel
    && r.trajectoryCount == trajectoryCount
    && r.allPolicies == policies && r.selectedPolicyId == selected && r.selectionCriteria == criteria
    && r.witnessSigs == witnesses && |r.witnessIds| == |witnesses|
    && (forall i :: 0 <= i < |witnesses| ==> r.witnessIds[i] == witnesses[i].witnessId)
    && x.sign(r.merkleCommitment, key) == Some(r.signature)
  }

  /** A receipt comes out exactly when there are two policies, the selected one is among them,
      and two or more witnesses all carry the commitment that the inputs determine. */
  lemma BuildSucceedsIff(
    x: Crypto, stamp: Stamp, twinId: string, simEngine: string, robotModel: string, trajectoryCount: U32,
    policies: seq<SimPolicy>, selected: string, criteria: string, witnesses: seq<Attestation>, key: string)
    ensures var c := Committed(twinId, simEngine, robotModel, trajectoryCount, x.policiesJson(policies));
            var r := Build(x, stamp, twinId, simEngine, robotModel, trajectoryCount, policies, selected,
                           criteria, witnesses, key);
            && (r.Ok? <==>
                && |policies| >= 2 && Contains(policies, selected) && |witnesses| >= 2
                && AllCarry(witnesses, Commitment(x.h, c))
                && x.sign(Commitment(x.h, c), key).Some?)
            && (r.Ok? ==>
                && Sound(x, r.value) && CommittedOf(x, r.value) == c
                && Records(x, stamp, twinId, simEngine, robotModel, trajectoryCount, policies, selected, criteria,
                           witnesses, key, r.value)
                && r.value.merkleCommitment == Commitment(x.h, c))
  {
    var c := Committed(twinId, simEngine, robotModel, trajectoryCount, x.policiesJson(policies));
    NoMismatchIff(witnesses, Commitment(x.h, c));
  }

  /** The first witness whose commitment is another one, which the error names. */
  lemma {:induction false} MismatchIsFirst(witnesses: seq<Attestation>, commitment: string)
    returns (i: nat)
    requires FirstMismatch(witnesses, commitment).Some?
    ensures i < |witnesses| && witnesses[i].merkleCommitment != commitment
    ensures FirstMismatch(witnesses, commitment) == Some(witnesses[i].merkleCommitment)
    ensures AllCarry(witnesses[..i], commitment)
  {
    if witnesses[0].merkleCommitment != commitment {
      i := 0;
    } else {
      var k := MismatchIsFirst(witnesses[1..], commitment);
      i := k + 1;
      assert witnesses[..i] == [witnesses[0]] + witnesses[1..][..k];
    }
  }

  /** Which error a failing build returns: the guards are asked in the order of the cases. */
  lemma BuildFails(
    x: Crypto, stamp: Stamp, twinId: string, simEngine: string, robotModel: string, trajectoryCount: U32,
    policies: seq<SimPolicy>, selected: string, criteria: string, witnesses: seq<Attestation>, key: string)
    requires Build(x, stamp, twinId, simEngine, robotModel, trajectoryCount, policies, selected, criteria,
                   witnesses, key).Err?
    ensures var c := Committed(twinId, simEngine, robotModel, trajectoryCount, x.policiesJson(policies));
            var commitment := Commitment(x.h, c);
            match Build(x, stamp, twinId, simEngine, robotModel, trajectoryCount, policies, selected, criteria,
                        witnesses, key).error
            case InsufficientPolicies(n) => n == |policies| < 2
            case PolicyNotFound(id) => |policies| >= 2 && id == selected && !Contains(policies, id)
            case InsufficientWitnesses(n) => |policies| >= 2 && Contains(policies, selected) && n == |witnesses| < 2
            case MerkleRootMismatch(expected, got) =>
              && |policies| >= 2 && Contains(policies, selected) && |witnesses| >= 2 && expected == commitment
              && exists i :: 0 <= i < |witnesses| && got == witnesses[i].merkleCommitment != commitment
                             && AllCarry(witnesses[..i], commitment)
            case Crypto =>
              && |policies| >= 2 && Contains(policies, selected) && |witnesses| >= 2
              && AllCarry(witnesses, commitment) && x.sign(commitment, key).None?
            case SabbathFreeze => false
  {
    var c := Committed(twinId, simEngine, robotModel, trajectoryCount, x.policiesJson(policies));
    NoMismatchIff(witnesses, Commitment(x.h, c));
    if FirstMismatch(witnesses, Commitment(x.h, c)).Some? {
      var i := MismatchIsFirst(witnesses, Commitment(x.h, c));
    }
  }

  /** Two sound receipts with one commitment are about the same simulation, or yield a collision. */
  lemma ReceiptsBind(x: Crypto, r: Receipt, r': Receipt)
    requires Sound(x, r) && Sound(x, r') && r.merkleCommitment == r'.merkleCommitment
    ensures var found := FindCommitmentCollision(x.h, CommittedOf(x, r), CommittedOf(x, r'));
            if found.Some? then Collides(x.h, found.value)
            else
              && r.twinId == r'.twinId && r.simEngine == r'.simEngine && r.robotModel == r'.robotModel
              && r.trajectoryCount == r'.trajectoryCount && r.allPoliciesHash == r'.allPoliciesHash
              && x.policiesJson(r.allPolicies) == x.policiesJson(r'.allPolicies)
  {
    CommitmentBinds(x.h, CommittedOf(x, r), CommittedOf(x, r'));
  }
}
