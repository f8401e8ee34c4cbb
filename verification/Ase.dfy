/** twin-protocol/src/ase.rs: the tithe, its eight buckets, and the economy of a tile. */
module Ase {
  import opened Wire
  import opened Wrappers

  const BASE_RATE_MICRO: nat := 1_000_000
  const MAX_QUALITY_BONUS: real := 3.0
  const ESHU_TITHE_BPS: nat := 369

  datatype Split = Split(
    titheTotal: nat, veilsim: nat, rAndD: nat, governance: nat, reserve: nat, lottery: nat, grants: nat, ubi: nat,
    sabbathReserve: nat)

  datatype MintRequest = MintRequest(receiptId: string, quality: real, novelty: real)

  datatype MintResult = MintResult(receiptId: string, minted: nat, net: nat, ownerFee: nat, elegbara: Split)

  // ----- checked and saturating arithmetic

  /** A u64 product: none when it overflows. */
  function CheckedMul(a: nat, b: nat): Option<nat> {
    if a * b < U64_LIMIT then Some(a * b) else None
  }

  function SaturatingSub(a: nat, b: nat): nat {
    if a < b then 0 else a - b
  }

  /** The cast `as u64` of a float: truncated, and saturated at both ends. */
  function ToU64(x: real): (n: nat)
    ensures n < U64_LIMIT
  {
    if x < 0.0 then 0 else if x >= U64_LIMIT as real then U64_LIMIT - 1 else x.Floor
  }

  // ----- the tithe

  /** Seven buckets are cut from the tithe by basis points; the last takes what is left. */
  function ElegbaraRoute(tithe: nat): Option<Split> {
    var half, fifth, tenth, twentieth :=
      CheckedMul(tithe, 3_000), CheckedMul(tithe, 2_000), CheckedMul(tithe, 1_000), CheckedMul(tithe, 500);
    if half.None? || fifth.None? || tenth.None? || twentieth.None? then None
    else
      var veilsim, rAndD, each, ubi :=
        half.value / 10_000, fifth.value / 10_000, tenth.value / 10_000, twentieth.value / 10_000;
      var distributed := veilsim + rAndD + each + each + each + each + ubi;
      Some(Split(tithe, veilsim, rAndD, each, each, each, each, ubi, SaturatingSub(tithe, distributed)))
  }

  /** What remains of an amount, and where its tithe goes. */
  function EshuTithe(amount: nat): Option<(nat, Split)> {
    match CheckedMul(amount, ESHU_TITHE_BPS)
    case None => None
    case Some(product) =>
      var tithe := product / 10_000;
      match ElegbaraRoute(tithe)
      case None => None
      case Some(split) => Some((SaturatingSub(amount, tithe), split))
  }

  function Buckets(s: Split): nat {
    s.veilsim + s.rAndD + s.governance + s.reserve + s.lottery + s.grants + s.ubi + s.sabbathReserve
  }

  lemma RouteIff(tithe: nat)
    ensures ElegbaraRoute(tithe).Some? <==> tithe * 3_000 < U64_LIMIT
  {
  }

  /** Every bucket but the last is the floor of its share. */
  predicate IsFloorOf(bucket: nat, tithe: nat, bps: nat) {
    bucket * 10_000 <= tithe * bps < (bucket + 1) * 10_000
  }

  /** The eight buckets are the tithe. Seven are floors of their shares, and the last, which is due a
      twentieth, gets at least that and at most 121/20 more. */
  lemma RouteConserves(tithe: nat)
    requires ElegbaraRoute(tithe).Some?
    ensures var s := ElegbaraRoute(tithe).value;
            && s.titheTotal == tithe == Buckets(s)
            && IsFloorOf(s.veilsim, tithe, 3_000) && IsFloorOf(s.rAndD, tithe, 2_000)
            && IsFloorOf(s.governance, tithe, 1_000) && IsFloorOf(s.reserve, tithe, 1_000)
            && IsFloorOf(s.lottery, tithe, 1_000) && IsFloorOf(s.grants, tithe, 1_000)
            && IsFloorOf(s.ubi, tithe, 500)
            && tithe <= 20 * s.sabbathReserve <= tithe + 121
  {
    var q, r := tithe / 20, tithe % 20;
    var s := ElegbaraRoute(tithe).value;
    assert tithe == 20 * q + r;
    assert s.veilsim == 6 * q + r * 3 / 10;
    assert s.rAndD == 4 * q + r / 5;
    assert s.governance == 2 * q + r / 10;
    assert s.ubi == q;
  }

  /** The bound is met: a tithe that is 19 above a multiple of 20 leaves the most dust. */
  lemma MostDust(q: nat)
    requires ElegbaraRoute(20 * q + 19).Some?
    ensures var tithe := 20 * q + 19; 20 * ElegbaraRoute(tithe).value.sabbathReserve == tithe + 121
  {
    var s := ElegbaraRoute(20 * q + 19).value;
    assert s.veilsim == 6 * q + 5 && s.rAndD == 4 * q + 3 && s.governance == 2 * q + 1 && s.ubi == q;
  }

  /** No product overflows exactly when the first does not. */
  lemma TitheIff(amount: nat)
    ensures EshuTithe(amount).Some? <==> amount * ESHU_TITHE_BPS < U64_LIMIT
  {
    var product := amount * ESHU_TITHE_BPS;
    assert product / 10_000 * 3_000 <= product;
  }

  /** Nothing is lost: the rest and the eight buckets are the amount, and the tithe is 3.69% rounded down. */
  lemma TitheConserves(amount: nat)
    requires EshuTithe(amount).Some?
    ensures var r := EshuTithe(amount).value;
            && r.0 + Buckets(r.1) == amount && r.1.titheTotal == Buckets(r.1)
            && IsFloorOf(r.1.titheTotal, amount, ESHU_TITHE_BPS)
  {
    RouteConserves(amount * ESHU_TITHE_BPS / 10_000);
  }

  // ----- one mint

  /** base x (1 + 2 quality) x (1 + novelty / 2) */
  function MintReal(quality: real, novelty: real): real {
    BASE_RATE_MICRO as real * (1.0 + quality * (MAX_QUALITY_BONUS - 1.0)) * (1.0 + novelty * 0.5)
  }

  function MintAmount(quality: real, novelty: real): nat {
    ToU64(MintReal(quality, novelty))
  }

  lemma Grows(a: real, b: real, c: real, d: real)
    requires 0.0 <= a <= c && 0.0 <= b <= d
    ensures a * b <= c * d
  {
    assert a * b <= a * d;
    assert a * d <= c * d;
  }

  lemma FloorsOrdered(x: real, y: real)
    requires x <= y
    ensures ToU64(x) <= ToU64(y)
  {
  }

  /** Better captures never mint less; scores in 0..1 mint between 1 and 4.5 tokens, and never overflow. */
  lemma MintBounds(quality: real, novelty: real, quality2: real, novelty2: real)
    requires 0.0 <= quality <= quality2 <= 1.0 && 0.0 <= novelty <= novelty2 <= 1.0
    ensures BASE_RATE_MICRO <= MintAmount(quality, novelty) <= MintAmount(quality2, novelty2) <= 4_500_000
    ensures MintAmount(0.0, 0.0) == BASE_RATE_MICRO && MintAmount(1.0, 1.0) == 4_500_000
    ensures EshuTithe(MintAmount(quality, novelty)).Some?
  {
    assert MintReal(0.0, 0.0) == 1_000_000.0 && MintReal(1.0, 1.0) == 4_500_000.0;
    var a, b := 1_000_000.0 * (1.0 + quality * 2.0), 1.0 + novelty * 0.5;
    var c, d := 1_000_000.0 * (1.0 + quality2 * 2.0), 1.0 + novelty2 * 0.5;
    Grows(1_000_000.0, 1.0, a, b);
    Grows(a, b, c, d);
    Grows(c, d, 3_000_000.0, 1.5);
    assert MintReal(quality, novelty) == a * b && MintReal(quality2, novelty2) == c * d;
    FloorsOrdered(1_000_000.0, a * b);
    FloorsOrdered(a * b, c * d);
    FloorsOrdered(c * d, 4_500_000.0);
    TitheIff(MintAmount(quality, novelty));
  }

  /** The mint in parts: a token, two more for full quality, half a token for full novelty, and one more token for
      both together; what is not a whole unit is dropped, and the cast saturates. */
  lemma MintIs(quality: real, novelty: real)
    ensures var n := MintAmount(quality, novelty);
            var exact := 1_000_000.0 + 2_000_000.0 * quality + 500_000.0 * novelty
                         + 1_000_000.0 * (quality * novelty);
            if exact < 0.0 then n == 0
            else if exact >= 18_446_744_073_709_551_616.0 then n == 18_446_744_073_709_551_615
            else n as real <= exact < (n + 1) as real
  {
    var exact := 1_000_000.0 + 2_000_000.0 * quality + 500_000.0 * novelty + 1_000_000.0 * (quality * novelty);
    assert MintReal(quality, novelty) == 1_000_000.0 * ((1.0 + quality * 2.0) * (1.0 + novelty * 0.5));
    assert (1.0 + quality * 2.0) * (1.0 + novelty * 0.5)
        == 1.0 + quality * 2.0 + novelty * 0.5 + quality * novelty;
    assert MintReal(quality, novelty) == exact;
  }

  function FeeReal(tokens: nat, feePct: real): real {
    tokens as real * feePct / 100.0
  }

  function OwnerFee(tokens: nat, feePct: real): nat {
    ToU64(FeeReal(tokens, feePct))
  }

  lemma FeesOrdered(tokens: nat, feePct: real, tokens2: nat, feePct2: real)
    requires tokens <= tokens2 && 0.0 <= feePct <= feePct2
    ensures OwnerFee(tokens, feePct) <= OwnerFee(tokens2, feePct2)
  {
    Grows(tokens as real, feePct, tokens2 as real, feePct2);
    FloorsOrdered(FeeReal(tokens, feePct), FeeReal(tokens2, feePct2));
  }

  /** A higher percentage or a larger amount never lowers the fee; it runs from nothing at 0% to
      everything at 100%. */
  lemma FeeBounds(tokens: nat, tokens2: nat, feePct: real, feePct2: real)
    requires tokens <= tokens2 < U64_LIMIT && 0.0 <= feePct <= feePct2 <= 100.0
    ensures 0 == OwnerFee(tokens, 0.0) <= OwnerFee(tokens, feePct) <= OwnerFee(tokens2, feePct2)
    ensures OwnerFee(tokens2, feePct2) <= OwnerFee(tokens2, 100.0) == tokens2
  {
    FeesOrdered(tokens, 0.0, tokens, feePct);
    FeesOrdered(tokens, feePct, tokens2, feePct2);
    FeesOrdered(tokens2, feePct2, tokens2, 100.0);
    assert FeeReal(tokens, 0.0) == 0.0;
    assert FeeReal(tokens2, 100.0) == tokens2 as real;
  }

  /** The fee is that many hundredths of the amount, rounded down. */
  lemma FeeIs(tokens: nat, feePct: real)
    requires 0.0 <= feePct <= 100.0 && tokens < U64_LIMIT
    ensures var fee := OwnerFee(tokens, feePct) as real;
            fee * 100.0 <= tokens as real * feePct < fee * 100.0 + 100.0
  {
    FeeBounds(tokens, tokens, feePct, feePct);
    var product := tokens as real * feePct;
    assert FeeReal(tokens, feePct) == product / 100.0;
    Grows(0.0, 0.0, tokens as real, feePct);
  }

  /** mint_ase: the fee is drawn from what the tithe leaves, and only when the tile has an owner. */
  function Mint(req: MintRequest, owned: bool, feePct: real): Option<MintResult> {
    var minted := MintAmount(req.quality, req.novelty);
    match EshuTithe(minted)
    case None => None
    case Some(r) => Some(MintResult(req.receiptId, minted, r.0, if owned then OwnerFee(r.0, feePct) else 0, r.1))
  }

  /** What a mint adds to the tile's tokens. */
  function Earned(r: MintResult): nat {
    SaturatingSub(r.net, r.ownerFee)
  }

  class TileEconomy {
    const tileId: string
    var ownerDid: Option<string>
    var stakedTokens: nat
    var earnedTokens: nat
    var usageFeePct: real
    var captureCount: nat
    var lastCapture: Option<nat>

    constructor (tileId: string, ownerDid: Option<string>, stakedTokens: nat, usageFeePct: real)
      ensures this.tileId == tileId && this.ownerDid == ownerDid && this.stakedTokens == stakedTokens
      ensures this.usageFeePct == usageFeePct && earnedTokens == 0 && captureCount == 0 && lastCapture == None
    {
      this.tileId, this.ownerDid, this.stakedTokens, this.usageFeePct := tileId, ownerDid, stakedTokens, usageFeePct;
      earnedTokens, captureCount, lastCapture := 0, 0, None;
    }

    /** update_tile_economy, with the clock as a parameter. */
    method Update(r: MintResult, nowMs: nat)
      modifies `captureCount, `earnedTokens, `lastCapture
      ensures captureCount == old(captureCount) + 1
      ensures earnedTokens == old(earnedTokens) + Earned(r)
      ensures lastCapture == Some(nowMs)
    {
      captureCount := captureCount + 1;
      earnedTokens := earnedTokens + SaturatingSub(r.net, r.ownerFee);
      lastCapture := Some(nowMs);
    }
  }

  method MintAse(req: MintRequest, tile: TileEconomy?) returns (r: Option<MintResult>)
    ensures r == if tile == null then Mint(req, false, 0.0) else Mint(req, tile.ownerDid.Some?, tile.usageFeePct)
  {
    var minted := MintAmount(req.quality, req.novelty);
    var tithe := EshuTithe(minted);
    if tithe.None? {
      return None;
    }
    var fee := 0;
    if tile != null && tile.ownerDid.Some? {
      fee := OwnerFee(tithe.value.0, tile.usageFeePct);
    }
    r := Some(MintResult(req.receiptId, minted, tithe.value.0, fee, tithe.value.1));
  }

  // ----- conservation

  /** One call of mint_ase: the request, and the tile's owner and fee at that moment. */
  datatype Call = Call(req: MintRequest, owned: bool, feePct: real)

  function Outcome(c: Call): Option<MintResult> {
    Mint(c.req, c.owned, c.feePct)
  }

  /** What the tithe leaves of a request; known before the mint. */
  function NetOf(req: MintRequest): nat {
    match EshuTithe(MintAmount(req.quality, req.novelty))
    case None => 0
    case Some(r) => r.0
  }

  /** The excess of the fee over 100% is worth less than one token. */
  predicate Fits(net: nat, feePct: real) {
    net as real * (feePct - 100.0) < 100.0
  }

  /** A check a caller can make before the mint. */
  predicate FeeFits(c: Call) {
    c.owned ==> Fits(NetOf(c.req), c.feePct)
  }

  predicate Conserves(r: MintResult) {
    Earned(r) + r.ownerFee + r.elegbara.titheTotal == r.minted
  }

  /** Even a fee over 100% is harmless while the excess is worth less than one token. */
  lemma FeeWithinNetIff(net: nat, feePct: real)
    requires net < U64_LIMIT - 1
    ensures OwnerFee(net, feePct) <= net <==> Fits(net, feePct)
  {
    var product := net as real * feePct;
    assert net as real * (feePct - 100.0) == product - net as real * 100.0;
    assert FeeReal(net, feePct) == product / 100.0;
    assert OwnerFee(net, feePct) <= net <==> product / 100.0 < net as real + 1.0;
  }

  lemma MintParts(c: Call)
    requires Outcome(c).Some?
    ensures var r := Outcome(c).value;
            && r.receiptId == c.req.receiptId && r.minted == MintAmount(c.req.quality, c.req.novelty)
            && r.net + r.elegbara.titheTotal == r.minted < U64_LIMIT
            && IsFloorOf(r.elegbara.titheTotal, r.minted, 369) && r.elegbara.titheTotal == Buckets(r.elegbara)
            && r.net == NetOf(c.req) < U64_LIMIT - 1
  {
    var minted := MintAmount(c.req.quality, c.req.novelty);
    TitheIff(minted);
    TitheConserves(minted);
  }

  lemma ResultConservesIff(r: MintResult)
    requires r.net + r.elegbara.titheTotal == r.minted
    ensures Conserves(r) <==> r.ownerFee <= r.net
    ensures !Conserves(r) ==> r.ownerFee + r.elegbara.titheTotal > r.minted && Earned(r) == 0
  {
  }

  lemma MintFee(c: Call)
    requires Outcome(c).Some?
    ensures Outcome(c).value.ownerFee == if c.owned then OwnerFee(NetOf(c.req), c.feePct) else 0
  {
  }

  /** A mint loses and creates nothing exactly when the fee does not exceed what it is drawn from. The
      saturating subtraction otherwise hides that fee and tithe together exceed the mint. */
  lemma MintConservesIff(c: Call)
    requires Outcome(c).Some?
    ensures var r := Outcome(c).value;
            && (Conserves(r) <==> FeeFits(c))
            && (!Conserves(r) ==> r.ownerFee + r.elegbara.titheTotal > r.minted && Earned(r) == 0)
  {
    MintParts(c);
    MintFee(c);
    ResultConservesIff(Outcome(c).value);
    FeeWithinNetIff(NetOf(c.req), c.feePct);
  }

  lemma InRangeFits(net: nat, feePct: real)
    requires feePct <= 100.0
    ensures Fits(net, feePct)
  {
    var x, y := net as real, 100.0 - feePct;
    assert x * y >= 0.0;
    assert x * (feePct - 100.0) == -(x * y);
  }

  /** Within the documented range of the fee every mint conserves. */
  lemma FeeInRangeConserves(c: Call)
    requires Outcome(c).Some? && 0.0 <= c.feePct <= 100.0
    ensures Conserves(Outcome(c).value)
  {
    InRangeFits(NetOf(c.req), c.feePct);
    MintConservesIff(c);
  }

  /** A base capture on an owned tile with a fee of 200%: one token is minted, and 1.9631 are handed out. */
  lemma DoubleFee(receiptId: string)
    ensures var c := Call(MintRequest(receiptId, 0.0, 0.0), true, 200.0);
            && Outcome(c).Some? && !FeeFits(c) && !Conserves(Outcome(c).value)
            && var r := Outcome(c).value;
               r.minted == 1_000_000 && r.elegbara.titheTotal == 36_900 && r.ownerFee == 1_926_200 && Earned(r) == 0
  {
    var c := Call(MintRequest(receiptId, 0.0, 0.0), true, 200.0);
    assert MintReal(0.0, 0.0) == 1_000_000.0;
    assert FeeReal(963_100, 200.0) == 1_926_200.0;
    MintConservesIff(c);
  }

  // ----- a run of mints on one tile

  datatype Totals = Totals(earned: nat, minted: nat, fees: nat, tithes: nat, captures: nat)

  function Add(t: Totals, r: MintResult): Totals {
    Totals(t.earned + Earned(r), t.minted + r.minted, t.fees + r.ownerFee, t.tithes + r.elegbara.titheTotal,
           t.captures + 1)
  }

  /** The tile's tokens and captures, and the totals, after the results were applied in order. */
  function AfterMints(earned: nat, captures: nat, results: seq<MintResult>): Totals {
    if results == [] then Totals(earned, 0, 0, 0, captures)
    else Add(AfterMints(earned, captures, results[..|results| - 1]), results[|results| - 1])
  }

  /** The results of the calls, in order. Between two calls the tile may be claimed or its fee changed. */
  predicate AllMints(results: seq<MintResult>, calls: seq<Call>) {
    |calls| == |results| && forall i :: 0 <= i < |results| ==> Outcome(calls[i]) == Some(results[i])
  }

  predicate AllFit(calls: seq<Call>) {
    forall i :: 0 <= i < |calls| ==> FeeFits(calls[i])
  }

  lemma AllFitLast(calls: seq<Call>)
    requires calls != []
    ensures var n := |calls| - 1; AllFit(calls) <==> AllFit(calls[..n]) && FeeFits(calls[n])
  {
    var n := |calls| - 1;
    assert forall i :: 0 <= i < n ==> calls[..n][i] == calls[i];
  }

  lemma AllMintsLast(results: seq<MintResult>, calls: seq<Call>)
    requires AllMints(results, calls) && results != []
    ensures var n := |results| - 1; AllMints(results[..n], calls[..n]) && Outcome(calls[n]) == Some(results[n])
  {
  }

  predicate Balanced(earned: nat, t: Totals) {
    t.earned + t.fees + t.tithes == earned + t.minted
  }

  predicate NothingShort(earned: nat, t: Totals) {
    t.earned + t.fees + t.tithes >= earned + t.minted
  }

  lemma AddBalances(earned: nat, t: Totals, r: MintResult, c: Call)
    requires Outcome(c) == Some(r) && NothingShort(earned, t)
    ensures NothingShort(earned, Add(t, r))
    ensures Balanced(earned, Add(t, r)) <==> Balanced(earned, t) && FeeFits(c)
  {
    MintParts(c);
    MintConservesIff(c);
  }

  /** Over any run on one tile, whoever owns it and whatever fee it takes at each mint: all that was
      minted went to the tile, its owner or the tithe exactly when that is so for each mint; otherwise
      more was handed out than minted. */
  lemma {:induction false} RunConservesIff(earned: nat, captures: nat, results: seq<MintResult>, calls: seq<Call>)
    requires AllMints(results, calls)
    ensures var t := AfterMints(earned, captures, results);
            && t.captures == captures + |results| && NothingShort(earned, t)
            && (Balanced(earned, t) <==> AllFit(calls))
  {
    if results != [] {
      var n := |results| - 1;
      AllMintsLast(results, calls);
      AllFitLast(calls);
      RunConservesIff(earned, captures, results[..n], calls[..n]);
      AddBalances(earned, AfterMints(earned, captures, results[..n]), results[n], calls[n]);
    }
  }

  /** While every fee is in 0..100 every run conserves, and the tile's counter stays below 2^64 while
      what it held and what was minted does. */
  lemma RunConserves(earned: nat, captures: nat, results: seq<MintResult>, calls: seq<Call>)
    requires AllMints(results, calls) && forall i :: 0 <= i < |calls| ==> 0.0 <= calls[i].feePct <= 100.0
    ensures var t := AfterMints(earned, captures, results);
            && Balanced(earned, t)
            && (earned + t.minted < U64_LIMIT ==> t.earned < U64_LIMIT)
  {
    forall i | 0 <= i < |calls| ensures FeeFits(calls[i]) {
      InRangeFits(NetOf(calls[i].req), calls[i].feePct);
    }
    RunConservesIff(earned, captures, results, calls);
  }
}
