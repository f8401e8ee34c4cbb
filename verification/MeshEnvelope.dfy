/** sovereign-types/src/mesh_envelope.rs: the compact binary envelope for LoRa links. */
module MeshEnvelope {
  import opened Wire
  import opened Wrappers
  import Text

  const VERSION: Byte := 1
  const MAX_BYTES: nat := 136
  const HEADER_BYTES: nat := 102
  const BODY_BUDGET: nat := MAX_BYTES - HEADER_BYTES

  datatype Kind = HeartbeatKind | LifecycleCmdKind | MeshJoinKind | MeshLeaveKind | OrcaRelayKind

  datatype Body =
    | Heartbeat(stage: Byte, battery: Byte)
    | LifecycleCmd(transition: Byte, reasonCode: Byte)
    | MeshJoin(agentIdHint: Bytes, tier: Byte)
    | MeshLeave(reason: Byte)
    | OrcaRelay(payload: Bytes)

  datatype Envelope = Envelope(version: Byte, kind: Kind, tsSecs: U32, pubkey: Hash, signature: Bytes, body: Body)

  datatype Error =
    | BufferTooShort
    | BodyTooShort
    | UnsupportedVersion(version: Byte)
    | UnknownKind(kind: Byte)
    | PayloadOverflow(total: nat, max: nat)

  /** The hint of a MeshJoin is an array of four bytes. */
  predicate WellTyped(b: Body) {
    b.MeshJoin? ==> |b.agentIdHint| == 4
  }

  function KindByte(k: Kind): Byte {
    match k
    case HeartbeatKind => 1
    case LifecycleCmdKind => 2
    case MeshJoinKind => 3
    case MeshLeaveKind => 4
    case OrcaRelayKind => 5
  }

  function KindFromByte(v: Byte): Result<Kind, Error> {
    if v == 1 then Ok(HeartbeatKind)
    else if v == 2 then Ok(LifecycleCmdKind)
    else if v == 3 then Ok(MeshJoinKind)
    else if v == 4 then Ok(MeshLeaveKind)
    else if v == 5 then Ok(OrcaRelayKind)
    else Err(UnknownKind(v))
  }

  function KindOf(b: Body): Kind {
    match b
    case Heartbeat(_, _) => HeartbeatKind
    case LifecycleCmd(_, _) => LifecycleCmdKind
    case MeshJoin(_, _) => MeshJoinKind
    case MeshLeave(_) => MeshLeaveKind
    case OrcaRelay(_) => OrcaRelayKind
  }

  function EncodeBody(b: Body): Bytes {
    match b
    case Heartbeat(stage, battery) => [stage, battery]
    case LifecycleCmd(transition, reasonCode) => [transition, reasonCode]
    case MeshJoin(hint, tier) => hint + [tier]
    case MeshLeave(reason) => [reason]
    case OrcaRelay(payload) => if |payload| < BODY_BUDGET then payload else payload[..BODY_BUDGET]
  }

  function DecodeBody(k: Kind, data: Bytes): (r: Result<Body, Error>)
    ensures r.Ok? ==> WellTyped(r.value) && KindOf(r.value) == k
  {
    match k
    case HeartbeatKind => if |data| < 2 then Err(BodyTooShort) else Ok(Heartbeat(data[0], data[1]))
    case LifecycleCmdKind => if |data| < 2 then Err(BodyTooShort) else Ok(LifecycleCmd(data[0], data[1]))
    case MeshJoinKind => if |data| < 5 then Err(BodyTooShort) else Ok(MeshJoin(data[..4], data[4]))
    case MeshLeaveKind => if |data| == 0 then Err(BodyTooShort) else Ok(MeshLeave(data[0]))
    case OrcaRelayKind => Ok(OrcaRelay(data))
  }

  /** The signature slot: 64 bytes, cut or padded with zeros. */
  function Sig64(signature: Bytes): (s: Bytes)
    ensures |s| == 64
    ensures |signature| == 64 ==> s == signature
  {
    if |signature| <= 64 then signature + Zeros(64 - |signature|) else signature[..64]
  }

  function SigningBytes(version: Byte, kind: Kind, tsSecs: U32, pubkey: Hash, body: Bytes): Bytes {
    [version] + [KindByte(kind)] + BeU32(tsSecs) + pubkey + body
  }

  /** What fingerprint hashes. */
  function FingerprintMessage(e: Envelope): Bytes {
    SigningBytes(e.version, e.kind, e.tsSecs, e.pubkey, EncodeBody(e.body)) + e.signature
  }

  function Fingerprint(h: HashFn, e: Envelope): string {
    Text.Hex(h(FingerprintMessage(e)))
  }

  function Header(e: Envelope): (r: Bytes)
    ensures |r| == HEADER_BYTES
  {
    [e.version, KindByte(e.kind)] + BeU32(e.tsSecs) + e.pubkey + Sig64(e.signature)
  }

  function Encode(e: Envelope): Result<Bytes, Error> {
    var body := EncodeBody(e.body);
    var total := HEADER_BYTES + |body|;
    if total > MAX_BYTES then Err(PayloadOverflow(total, MAX_BYTES)) else Ok(Header(e) + body)
  }

  function Decode(b: Bytes): Result<Envelope, Error> {
    if |b| < HEADER_BYTES then Err(BufferTooShort)
    else if b[0] != VERSION then Err(UnsupportedVersion(b[0]))
    else
      match KindFromByte(b[1])
      case Err(e) => Err(e)
      case Ok(kind) =>
        match DecodeBody(kind, b[102..])
        case Err(e) => Err(e)
        case Ok(body) => Ok(Envelope(b[0], kind, FromBeU32(b[2..6]), b[6..38], b[38..102], body))
  }

  // ----- encoding always fits

  /** No envelope overflows the budget: the overflow error of encode is never returned. */
  lemma EncodeFits(e: Envelope)
    requires WellTyped(e.body)
    ensures Encode(e).Ok? && |Encode(e).value| <= MAX_BYTES
  {
  }

  // ----- envelope, bytes, envelope

  /** The body as it survives the wire. */
  function CutBody(b: Body): Body {
    match b
    case OrcaRelay(payload) => OrcaRelay(EncodeBody(b))
    case _ => b
  }

  function OnWire(e: Envelope): Envelope {
    e.(signature := Sig64(e.signature), body := CutBody(e.body))
  }

  /** The wire keeps an envelope exactly when its signature and payload fit their slots. */
  lemma OnWireIff(e: Envelope)
    ensures OnWire(e) == e
            <==> |e.signature| == 64 && (e.body.OrcaRelay? ==> |e.body.payload| <= BODY_BUDGET)
  {
    if e.body.OrcaRelay? {
      if |e.body.payload| == BODY_BUDGET {
        assert e.body.payload[..BODY_BUDGET] == e.body.payload;
      }
      assert CutBody(e.body) == e.body <==> |e.body.payload| <= BODY_BUDGET;
    } else {
      assert CutBody(e.body) == e.body;
    }
    assert OnWire(e).signature == Sig64(e.signature) && OnWire(e).body == CutBody(e.body);
  }

  lemma KindByteInverse(k: Kind)
    ensures KindFromByte(KindByte(k)) == Ok(k)
  {
  }

  lemma BodyRoundTrip(b: Body)
    requires WellTyped(b)
    ensures DecodeBody(KindOf(b), EncodeBody(b)) == Ok(CutBody(b))
  {
    if b.MeshJoin? {
      assert (b.agentIdHint + [b.tier])[..4] == b.agentIdHint;
    }
  }

  lemma HeaderParts(e: Envelope, body: Bytes)
    ensures var b := Header(e) + body;
            && b[0] == e.version && b[1] == KindByte(e.kind) && b[2..6] == BeU32(e.tsSecs)
            && b[6..38] == e.pubkey && b[38..102] == Sig64(e.signature) && b[102..] == body
  {
    var b := Header(e) + body;
    assert b[..102] == Header(e);
    assert b[2..6] == Header(e)[2..6];
    assert b[6..38] == Header(e)[6..38];
    assert b[38..102] == Header(e)[38..102];
  }

  /** The kind byte of each body, and the body's own bytes in order. */
  predicate IsBodyOnWire(b: Body, kind: Byte, bytes: Bytes) {
    match b
    case Heartbeat(stage, battery) => kind == 1 && bytes == [stage, battery]
    case LifecycleCmd(transition, reasonCode) => kind == 2 && bytes == [transition, reasonCode]
    case MeshJoin(hint, tier) => kind == 3 && |bytes| == 5 && bytes[..4] == hint && bytes[4] == tier
    case MeshLeave(reason) => kind == 4 && bytes == [reason]
    case OrcaRelay(payload) =>
      kind == 5 && bytes <= payload && |bytes| == if |payload| < 34 then |payload| else 34
  }

  lemma BodyOnWire(b: Body)
    requires WellTyped(b)
    ensures IsBodyOnWire(b, KindByte(KindOf(b)), EncodeBody(b))
  {
  }

  lemma Sig64At(signature: Bytes, i: nat)
    requires i < 64
    ensures Sig64(signature)[i] == if i < |signature| then signature[i] else 0
  {
  }

  /** The wire format, byte for byte: version, kind, four bytes of time with the most significant first, the public
      key, a signature slot of 64 bytes filled up with zeros, and the body. */
  lemma WireLayout(e: Envelope, i: nat)
    requires WellTyped(e.body) && e.kind == KindOf(e.body) && i < 64
    ensures Encode(e).Ok?
    ensures var b := Encode(e).value;
            && |b| >= 102 && b[0] == e.version && IsBodyOnWire(e.body, b[1], b[102..])
            && b[2] as int == e.tsSecs / 0x100_0000 && b[3] as int == e.tsSecs / 0x1_0000 % 256
            && b[4] as int == e.tsSecs / 0x100 % 256 && b[5] as int == e.tsSecs % 256
            && b[6..38] == e.pubkey
            && b[38 + i] == if i < |e.signature| then e.signature[i] else 0
  {
    EncodeFits(e);
    HeaderParts(e, EncodeBody(e.body));
    BodyOnWire(e.body);
    BeU32At(e.tsSecs);
    Sig64At(e.signature, i);
    var b := Encode(e).value;
    assert b[2..6][0] == b[2] && b[2..6][1] == b[3] && b[2..6][2] == b[4] && b[2..6][3] == b[5];
    assert b[38..102][i] == b[38 + i];
  }

  /** Which error a rejected buffer gives. */
  lemma RejectsWith(b: Bytes)
    requires Decode(b).Err?
    ensures match Decode(b).error
            case BufferTooShort => |b| < 102
            case UnsupportedVersion(v) => |b| >= 102 && b[0] == v != 1
            case UnknownKind(k) => |b| >= 102 && b[0] == 1 && b[1] == k && !(1 <= k <= 5)
            case BodyTooShort => |b| >= 102 && b[0] == 1 && 1 <= b[1] <= 4
            case PayloadOverflow(_, _) => false
  {
  }

  /** What comes back from the wire, for any version-1 envelope whose kind is its body's. */
  lemma RoundTrip(e: Envelope)
    requires WellTyped(e.body) && e.version == VERSION && e.kind == KindOf(e.body)
    ensures Encode(e).Ok? && Decode(Encode(e).value) == Ok(OnWire(e))
  {
    EncodeFits(e);
    HeaderParts(e, EncodeBody(e.body));
    KindByteInverse(e.kind);
    BeU32RoundTrip(e.tsSecs);
    BodyRoundTrip(e.body);
  }

  /** It comes back unchanged exactly when it has version 1, the kind of its body, a signature of
      64 bytes, and a relay payload within the budget. */
  lemma RoundTripIff(e: Envelope)
    requires WellTyped(e.body)
    ensures Decode(Encode(e).value) == Ok(e)
            <==> e.version == VERSION && e.kind == KindOf(e.body) && |e.signature| == 64
                 && (e.body.OrcaRelay? ==> |e.body.payload| <= BODY_BUDGET)
  {
    EncodeFits(e);
    HeaderParts(e, EncodeBody(e.body));
    KindByteInverse(e.kind);
    if e.version == VERSION && e.kind == KindOf(e.body) {
      RoundTrip(e);
      OnWireIff(e);
    }
  }

  lemma MessageParts(e: Envelope)
    ensures var body := EncodeBody(e.body);
            FingerprintMessage(e)
            == ([e.version] + [KindByte(e.kind)] + BeU32(e.tsSecs) + e.pubkey + body) + e.signature
    ensures |FingerprintMessage(e)| == 38 + |EncodeBody(e.body)| + |e.signature|
  {
  }

  /** Sending preserves what the fingerprint hashes exactly when the signature has 64 bytes; for
      another length the fingerprints differ, or the two messages collide. */
  lemma FingerprintSurvives(h: HashFn, e: Envelope)
    requires WellTyped(e.body)
    ensures FingerprintMessage(OnWire(e)) == FingerprintMessage(e) <==> |e.signature| == 64
    ensures |e.signature| == 64 ==> Fingerprint(h, OnWire(e)) == Fingerprint(h, e)
    ensures |e.signature| != 64 && Fingerprint(h, OnWire(e)) == Fingerprint(h, e)
            ==> Collides(h, (FingerprintMessage(OnWire(e)), FingerprintMessage(e)))
  {
    assert EncodeBody(CutBody(e.body)) == EncodeBody(e.body);
    MessageParts(e);
    MessageParts(OnWire(e));
    if Fingerprint(h, OnWire(e)) == Fingerprint(h, e) {
      Text.HexInjective(h(FingerprintMessage(OnWire(e))), h(FingerprintMessage(e)));
    }
  }

  lemma MessageSlices(e: Envelope)
    ensures var m := FingerprintMessage(e);
            && |m| >= 38 && m[0] == e.version && m[1] == KindByte(e.kind) && m[2..6] == BeU32(e.tsSecs)
            && m[6..38] == e.pubkey && m[38..] == EncodeBody(e.body) + e.signature
  {
    var m := FingerprintMessage(e);
    var head := [e.version] + [KindByte(e.kind)] + BeU32(e.tsSecs) + e.pubkey;
    MessageParts(e);
    assert m == head + (EncodeBody(e.body) + e.signature) && |head| == 38;
    assert m[..38] == head;
    assert m[2..6] == head[2..6] && m[6..38] == head[6..38];
  }

  predicate SameHeader(a: Envelope, b: Envelope) {
    a.version == b.version && a.kind == b.kind && a.tsSecs == b.tsSecs && a.pubkey == b.pubkey
  }

  lemma SplitTail(x: Bytes, s: Bytes, y: Bytes, t: Bytes)
    requires x + s == y + t
    ensures |s| == |t| <==> x == y && s == t
  {
    if |s| == |t| {
      assert (x + s)[..|x|] == x && (y + t)[..|y|] == y;
      assert (x + s)[|x|..] == s && (y + t)[|y|..] == t;
    }
  }

  /** The hashed message joins body and signature without lengths. It fixes the header, and it fixes body
      and signature exactly when the signatures have one length; for every kind but the relay they do. */
  lemma MessageBindsIff(a: Envelope, b: Envelope)
    requires WellTyped(a.body) && a.kind == KindOf(a.body) && WellTyped(b.body) && b.kind == KindOf(b.body)
    requires FingerprintMessage(a) == FingerprintMessage(b)
    ensures SameHeader(a, b)
    ensures |a.signature| == |b.signature| <==> CutBody(a.body) == CutBody(b.body) && a.signature == b.signature
    ensures !a.body.OrcaRelay? ==> |a.signature| == |b.signature|
  {
    MessageSlices(a);
    MessageSlices(b);
    KindByteInverse(a.kind);
    KindByteInverse(b.kind);
    BeU32RoundTrip(a.tsSecs);
    BeU32RoundTrip(b.tsSecs);
    BodyRoundTrip(a.body);
    BodyRoundTrip(b.body);
    SplitTail(EncodeBody(a.body), a.signature, EncodeBody(b.body), b.signature);
    assert |EncodeBody(a.body) + a.signature| == |EncodeBody(b.body) + b.signature|;
  }

  /** A fingerprint identifies the envelope up to that boundary, or the hashed messages collide. With
      64-byte signatures it identifies the envelope on the wire. */
  lemma FingerprintBinds(h: HashFn, a: Envelope, b: Envelope)
    requires WellTyped(a.body) && a.kind == KindOf(a.body) && WellTyped(b.body) && b.kind == KindOf(b.body)
    requires Fingerprint(h, a) == Fingerprint(h, b)
    ensures || Collides(h, (FingerprintMessage(a), FingerprintMessage(b)))
            || (&& SameHeader(a, b)
                && (|a.signature| == |b.signature|
                    <==> CutBody(a.body) == CutBody(b.body) && a.signature == b.signature)
                && (|a.signature| == |b.signature| ==> OnWire(a) == OnWire(b)))
  {
    var m, n := FingerprintMessage(a), FingerprintMessage(b);
    Text.HexInjective(h(m), h(n));
    if m == n {
      MessageBindsIff(a, b);
    }
  }

  /** A byte moved from the relay payload to the signature: two envelopes, one fingerprint for every hash,
      although they differ on the wire. */
  lemma RelayBoundaryMoves(h: HashFn, tsSecs: U32, pubkey: Hash, x: Byte)
    ensures var a := Envelope(VERSION, OrcaRelayKind, tsSecs, pubkey, [], OrcaRelay([x]));
            var b := Envelope(VERSION, OrcaRelayKind, tsSecs, pubkey, [x], OrcaRelay([]));
            Fingerprint(h, a) == Fingerprint(h, b) && OnWire(a) != OnWire(b)
  {
    var a := Envelope(VERSION, OrcaRelayKind, tsSecs, pubkey, [], OrcaRelay([x]));
    var b := Envelope(VERSION, OrcaRelayKind, tsSecs, pubkey, [x], OrcaRelay([]));
    MessageParts(a);
    MessageParts(b);
    assert FingerprintMessage(a) == FingerprintMessage(b);
    assert EncodeBody(a.body) == [x] && EncodeBody(b.body) == [];
  }

  // ----- bytes, envelope, bytes

  /** Exactly which buffers are accepted. */
  lemma AcceptsIff(b: Bytes)
    ensures Decode(b).Ok?
            <==> |b| >= HEADER_BYTES && b[0] == VERSION && 1 <= b[1] <= 5
                 && |b| >= HEADER_BYTES + (if b[1] == 3 then 5 else if b[1] == 4 then 1 else if b[1] == 5 then 0 else 2)
  {
  }

  /** Re-encoding an accepted buffer gives a prefix of it: what follows the body is dropped. */
  lemma Reencode(b: Bytes)
    requires Decode(b).Ok?
    ensures var e := Decode(b).value;
            && WellTyped(e.body) && e.version == VERSION && e.kind == KindOf(e.body) && |e.signature| == 64
            && Encode(e).Ok? && Encode(e).value <= b
  {
    var e := Decode(b).value;
    EncodeFits(e);
    BeU32Inverse(b[2..6]);
    assert KindByte(e.kind) == b[1];
    var r := Encode(e).value;
    assert Header(e) == b[..102] by {
      assert b[..102] == [b[0], b[1]] + b[2..6] + b[6..38] + b[38..102];
    }
    assert EncodeBody(e.body) <= b[102..];
    assert r == b[..102] + EncodeBody(e.body);
  }

  /** How many bytes a body of this kind takes; a relay body takes what follows the header. */
  function BodySize(kind: Byte): nat {
    if kind == 3 then 5 else if kind == 4 then 1 else 2
  }

  /** Exactly which accepted buffers come back whole: relays within the budget, and the other kinds
      without anything after the body. */
  lemma ReencodeIff(b: Bytes)
    requires Decode(b).Ok?
    ensures Encode(Decode(b).value).Ok?
    ensures Encode(Decode(b).value).value == b
            <==> if b[1] == 5 then |b| <= MAX_BYTES else |b| == HEADER_BYTES + BodySize(b[1])
  {
    Reencode(b);
    var e := Decode(b).value;
    var r := Encode(e).value;
    assert |r| == HEADER_BYTES + |EncodeBody(e.body)|;
    assert r == b[..|r|];
    assert |r| == |b| ==> b[..|r|] == b;
  }

  /** Buffers that decode to one envelope agree on everything the envelope keeps. */
  lemma DecodeInjective(a: Bytes, b: Bytes)
    requires Decode(a).Ok? && Decode(a) == Decode(b)
    ensures a[..102] == b[..102]
    ensures Encode(Decode(a).value).value <= a && Encode(Decode(a).value).value <= b
  {
    Reencode(a);
    Reencode(b);
    var r := Encode(Decode(a).value).value;
    assert |r| >= 102 && r[..102] == a[..102] && r[..102] == b[..102];
  }
}
