/** sovereign-pipeline/src/merge.rs, merge_splats: many clouds into one, with its statistics. */
module Merge {
  import opened Voxel
  import opened Wrappers
  import Ply

  datatype MergeError = Empty | BadBase64(deviceId: string) | BadPly(deviceId: string)

  datatype Splat = Splat(deviceId: string, ply: string)

  /** What the base64 crate and the UTF-8 check make of a splat's data. */
  datatype Decoded = NotBase64 | NotUtf8 | Plain(text: string)

  type Decoder = string -> Decoded

  /** The merged cloud as the PLY text that the result carries in base64. */
  datatype MergeResult = MergeResult(
    mergedPly: string, sourceCount: nat, inputPoints: nat, outputPoints: nat, reductionPct: real,
    centroid: Point, bboxMin: Point, bboxMax: Point)

  const MILLION: real := 1_000_000.0

  function PointOf(v: Ply.Vertex): Point {
    Point(v.x as real / MILLION, v.y as real / MILLION, v.z as real / MILLION)
  }

  function PointsOf(vs: seq<Ply.Vertex>): (ps: seq<Point>)
    ensures |ps| == |vs|
  {
    seq(|vs|, i requires 0 <= i < |vs| => PointOf(vs[i]))
  }

  predicate IsFinite(r: Ply.Reading) {
    r.x.Finite? && r.y.Finite? && r.z.Finite?
  }

  /** The points with real coordinates, in order. */
  function FinitePoints(rs: seq<Ply.Reading>): seq<Point> {
    if rs == [] then []
    else
      var front, r := FinitePoints(rs[..|rs| - 1]), rs[|rs| - 1];
      if IsFinite(r) then front + [Point(r.x.value, r.y.value, r.z.value)] else front
  }

  lemma {:induction false} WrittenAreFinite(vs: seq<Ply.Vertex>)
    ensures FinitePoints(Ply.ReadingsOf(vs)) == PointsOf(vs)
  {
    if vs != [] {
      var front := vs[..|vs| - 1];
      WrittenAreFinite(front);
      assert Ply.ReadingsOf(vs)[..|vs| - 1] == Ply.ReadingsOf(front);
      assert PointsOf(vs) == PointsOf(front) + [PointOf(vs[|vs| - 1])];
    }
  }

  function LoadSplat(decode: Decoder, splat: Splat): Result<seq<Point>, MergeError> {
    match decode(splat.ply)
    case NotBase64 => Err(BadBase64(splat.deviceId))
    case NotUtf8 => Err(BadPly(splat.deviceId))
    case Plain(text) =>
      match Ply.ParsePly(text)
      case None => Err(BadPly(splat.deviceId))
      case Some(rs) => Ok(FinitePoints(rs))
  }

  method Load(decode: Decoder, splat: Splat) returns (r: Result<seq<Point>, MergeError>)
    ensures r == LoadSplat(decode, splat)
  {
    match decode(splat.ply) {
      case NotBase64 =>
        r := Err(BadBase64(splat.deviceId));
      case NotUtf8 =>
        r := Err(BadPly(splat.deviceId));
      case Plain(text) =>
        var rs := Ply.ParsePlyPoints(text);
        if rs.None? {
          r := Err(BadPly(splat.deviceId));
        } else {
          r := Ok(FinitePoints(rs.value));
        }
    }
  }

  /** All clouds in order, or the error of the first splat that does not load. */
  function LoadAll(decode: Decoder, splats: seq<Splat>): Result<seq<Point>, MergeError> {
    if splats == [] then Ok([])
    else
      match LoadAll(decode, splats[..|splats| - 1])
      case Err(e) => Err(e)
      case Ok(front) =>
        match LoadSplat(decode, splats[|splats| - 1])
        case Err(e) => Err(e)
        case Ok(pts) => Ok(front + pts)
  }

  // ----- what a successful load holds

  /** How many points the first i parts have together. */
  function Offset(parts: seq<seq<Point>>, i: nat): nat
    requires i <= |parts|
  {
    if i == 0 then 0 else Offset(parts, i - 1) + |parts[i - 1]|
  }

  /** Part i stands in points behind all points of the parts before it. */
  predicate StandsAt(parts: seq<seq<Point>>, points: seq<Point>, i: nat)
    requires i < |parts|
  {
    var at := Offset(parts, i);
    at + |parts[i]| <= |points| && points[at..at + |parts[i]|] == parts[i]
  }

  /** points are the parts one after the other, and nothing else. */
  predicate IsUnion(parts: seq<seq<Point>>, points: seq<Point>) {
    |points| == Offset(parts, |parts|) && forall i :: 0 <= i < |parts| ==> StandsAt(parts, points, i)
  }

  /** Every splat loads, the i-th one as part i. */
  predicate AllLoad(decode: Decoder, splats: seq<Splat>, parts: seq<seq<Point>>) {
    |parts| == |splats| && forall i :: 0 <= i < |splats| ==> LoadSplat(decode, splats[i]) == Ok(parts[i])
  }

  lemma {:induction false} OffsetOfFront(parts: seq<seq<Point>>, part: seq<Point>, i: nat)
    requires i <= |parts|
    ensures Offset(parts + [part], i) == Offset(parts, i)
  {
    if i > 0 {
      OffsetOfFront(parts, part, i - 1);
    }
  }

  lemma {:induction false} OffsetGrows(parts: seq<seq<Point>>, i: nat, j: nat)
    requires i <= j <= |parts|
    ensures Offset(parts, i) <= Offset(parts, j)
  {
    if i < j {
      OffsetGrows(parts, i, j - 1);
    }
  }

  lemma OnePartMore(parts: seq<seq<Point>>, points: seq<Point>, part: seq<Point>)
    requires IsUnion(parts, points)
    ensures IsUnion(parts + [part], points + part)
  {
    var all, n := parts + [part], |parts|;
    OffsetOfFront(parts, part, n);
    forall i | 0 <= i < n + 1 ensures StandsAt(all, points + part, i) {
      if i < n {
        OffsetOfFront(parts, part, i);
        assert StandsAt(parts, points, i);
        assert (points + part)[..|points|] == points;
      } else {
        assert (points + part)[|points|..] == part;
      }
    }
  }

  /** When a merge loads at all, every splat loads, and the cloud is their points, splat after splat. */
  lemma {:induction false} LoadedIsUnion(decode: Decoder, splats: seq<Splat>) returns (parts: seq<seq<Point>>)
    requires LoadAll(decode, splats).Ok?
    ensures AllLoad(decode, splats, parts) && IsUnion(parts, LoadAll(decode, splats).value)
  {
    if splats == [] {
      parts := [];
    } else {
      var n := |splats| - 1;
      var front := LoadedIsUnion(decode, splats[..n]);
      var part := LoadSplat(decode, splats[n]).value;
      OnePartMore(front, LoadAll(decode, splats[..n]).value, part);
      parts := front + [part];
    }
  }

  /** And when it fails, the error is that of the first splat that does not load. */
  lemma {:induction false} FirstFailure(decode: Decoder, splats: seq<Splat>) returns (i: nat)
    requires LoadAll(decode, splats).Err?
    ensures i < |splats| && LoadSplat(decode, splats[i]) == Err(LoadAll(decode, splats).error)
    ensures forall k :: 0 <= k < i ==> LoadSplat(decode, splats[k]).Ok?
  {
    var n := |splats| - 1;
    if LoadAll(decode, splats[..n]).Err? {
      i := FirstFailure(decode, splats[..n]);
    } else {
      var parts := LoadedIsUnion(decode, splats[..n]);
      forall k | 0 <= k < n ensures LoadSplat(decode, splats[k]).Ok? {
        assert LoadSplat(decode, splats[..n][k]) == Ok(parts[k]);
      }
      i := n;
    }
  }

  /** Which splats load, and the error of one that does not. */
  lemma LoadSplatIff(decode: Decoder, splat: Splat)
    ensures var d, r := decode(splat.ply), LoadSplat(decode, splat);
            && (r.Ok? <==> d.Plain? && Ply.Occurs(d.text, "end_header"))
            && (r.Err? ==> r.error == if d.NotBase64? then BadBase64(splat.deviceId) else BadPly(splat.deviceId))
  {
    match decode(splat.ply)
    case Plain(text) => Ply.FindIff(text, Ply.END);
    case _ =>
  }

  /** A splat whose text was written from vertices loads as exactly their points. */
  lemma WrittenSplatLoads(decode: Decoder, splat: Splat, vs: seq<Ply.Vertex>)
    requires |vs| < Ply.USIZE_LIMIT && decode(splat.ply) == Plain(Ply.WritePly(vs))
    ensures LoadSplat(decode, splat) == Ok(PointsOf(vs))
  {
    Ply.RoundTrip(vs, "");
    assert Ply.WritePly(vs) + "" == Ply.WritePly(vs);
    WrittenAreFinite(vs);
  }

  /** Two devices: the cloud is the first one's points and then the second one's. */
  lemma TwoWrittenSplats(decode: Decoder, a: Splat, b: Splat, va: seq<Ply.Vertex>, vb: seq<Ply.Vertex>)
    requires |va| < Ply.USIZE_LIMIT && decode(a.ply) == Plain(Ply.WritePly(va))
    requires |vb| < Ply.USIZE_LIMIT && decode(b.ply) == Plain(Ply.WritePly(vb))
    ensures LoadAll(decode, [a, b]) == Ok(PointsOf(va) + PointsOf(vb))
  {
    WrittenSplatLoads(decode, a, va);
    WrittenSplatLoads(decode, b, vb);
    assert [a, b][..1] == [a] && [a][..0] == [];
    assert LoadAll(decode, [a]) == Ok(PointsOf(va)) by {
      assert [] + PointsOf(va) == PointsOf(va);
    }
  }

  lemma {:induction false} ErrorStays(decode: Decoder, splats: seq<Splat>, i: nat)
    requires i <= |splats| && LoadAll(decode, splats[..i]).Err?
    ensures LoadAll(decode, splats) == LoadAll(decode, splats[..i])
  {
    if i < |splats| {
      assert splats[..|splats| - 1][..i] == splats[..i];
      ErrorStays(decode, splats[..|splats| - 1], i);
    } else {
      assert splats[..i] == splats;
    }
  }

  function Coord(p: Point, axis: nat): real {
    if axis == 0 then p.x else if axis == 1 then p.y else p.z
  }

  /** The running bounds start at f64::MAX and f64::MIN; a bound not yet touched is None. */
  datatype Bound = Untouched | Touched(value: real)

  predicate IsLeast(ps: seq<Point>, axis: nat, b: Bound) {
    if ps == [] then b == Untouched
    else b.Touched? && (exists i :: 0 <= i < |ps| && Coord(ps[i], axis) == b.value)
         && forall i :: 0 <= i < |ps| ==> b.value <= Coord(ps[i], axis)
  }

  predicate IsGreatest(ps: seq<Point>, axis: nat, b: Bound) {
    if ps == [] then b == Untouched
    else b.Touched? && (exists i :: 0 <= i < |ps| && Coord(ps[i], axis) == b.value)
         && forall i :: 0 <= i < |ps| ==> b.value >= Coord(ps[i], axis)
  }

  function Lower(b: Bound, v: real): Bound {
    if b.Untouched? || v < b.value then Touched(v) else b
  }

  function Raise(b: Bound, v: real): Bound {
    if b.Untouched? || v > b.value then Touched(v) else b
  }

  lemma LowerStep(ps: seq<Point>, p: Point, axis: nat, b: Bound)
    requires IsLeast(ps, axis, b)
    ensures IsLeast(ps + [p], axis, Lower(b, Coord(p, axis)))
  {
    var all, b' := ps + [p], Lower(b, Coord(p, axis));
    if b' == b {
      var i :| 0 <= i < |ps| && Coord(ps[i], axis) == b.value;
      assert all[i] == ps[i];
    } else {
      assert all[|ps|] == p;
    }
  }

  lemma RaiseStep(ps: seq<Point>, p: Point, axis: nat, b: Bound)
    requires IsGreatest(ps, axis, b)
    ensures IsGreatest(ps + [p], axis, Raise(b, Coord(p, axis)))
  {
    var all, b' := ps + [p], Raise(b, Coord(p, axis));
    if b' == b {
      var i :| 0 <= i < |ps| && Coord(ps[i], axis) == b.value;
      assert all[i] == ps[i];
    } else {
      assert all[|ps|] == p;
    }
  }

  /** The tight bounding box: every side touches a point. */
  predicate IsBox(ps: seq<Point>, low: Point, high: Point) {
    forall axis: nat :: axis < 3 ==>
      IsLeast(ps, axis, Touched(Coord(low, axis))) && IsGreatest(ps, axis, Touched(Coord(high, axis)))
  }

  method Statistics(ps: seq<Point>) returns (centroid: Point, low: Point, high: Point)
    requires ps != []
    ensures centroid == Mean(ps)
    ensures IsBox(ps, low, high)
  {
    var sum := ORIGIN;
    var mn, mx := [Untouched, Untouched, Untouched], [Untouched, Untouched, Untouched];
    for i := 0 to |ps|
      invariant sum == Sum(ps[..i])
      invariant |mn| == |mx| == 3
      invariant forall a: nat :: a < 3 ==> IsLeast(ps[..i], a, mn[a]) && IsGreatest(ps[..i], a, mx[a])
    {
      var p := ps[i];
      assert ps[..i + 1] == ps[..i] + [p];
      SumAppend(ps[..i], p);
      sum := Add(sum, p);
      ghost var mn0, mx0 := mn, mx;
      for a := 0 to 3
        invariant |mn| == |mx| == 3
        invariant forall b: nat :: b < a ==> mn[b] == Lower(mn0[b], Coord(p, b)) && mx[b] == Raise(mx0[b], Coord(p, b))
        invariant forall b: nat :: a <= b < 3 ==> mn[b] == mn0[b] && mx[b] == mx0[b]
      {
        mn := mn[a := Lower(mn[a], Coord(p, a))];
        mx := mx[a := Raise(mx[a], Coord(p, a))];
      }
      forall b: nat | b < 3 ensures IsLeast(ps[..i + 1], b, mn[b]) && IsGreatest(ps[..i + 1], b, mx[b]) {
        LowerStep(ps[..i], p, b, mn0[b]);
        RaiseStep(ps[..i], p, b, mx0[b]);
      }
    }
    assert ps[..|ps|] == ps;
    centroid := Over(sum, |ps|);
    assert IsLeast(ps, 0, mn[0]) && IsLeast(ps, 1, mn[1]) && IsLeast(ps, 2, mn[2]);
    assert IsGreatest(ps, 0, mx[0]) && IsGreatest(ps, 1, mx[1]) && IsGreatest(ps, 2, mx[2]);
    low := Point(mn[0].value, mn[1].value, mn[2].value);
    high := Point(mx[0].value, mx[1].value, mx[2].value);
  }

  /** How "{:.6}" rounds a coordinate, in millionths. */
  type Rounding = real -> int

  predicate Near(v: real, n: int) {
    -0.5 <= v * MILLION - n as real <= 0.5
  }

  ghost predicate IsRounding(round: Rounding) {
    forall v: real :: Near(v, round(v))
  }

  function VertexOf(round: Rounding, p: Point): Ply.Vertex {
    Ply.Vertex(round(p.x), round(p.y), round(p.z))
  }

  function VerticesOf(round: Rounding, ps: seq<Point>): (vs: seq<Ply.Vertex>)
    ensures |vs| == |ps|
  {
    seq(|ps|, i requires 0 <= i < |ps| => VertexOf(round, ps[i]))
  }

  /** What a merge of these points may report; merged is the downsampled cloud. */
  ghost predicate Reports(points: seq<Point>, sources: nat, size: real, round: Rounding, merged: seq<Point>,
                          r: MergeResult)
  {
    && Downsampled(points, size, merged)
    && r.mergedPly == Ply.WritePly(VerticesOf(round, merged))
    && r.sourceCount == sources && r.inputPoints == |points| && r.outputPoints == |merged|
    && (points == [] ==> r.reductionPct == 0.0)
    && (points != [] ==> r.reductionPct == 100.0 * (1.0 - r.outputPoints as real / r.inputPoints as real))
    && (merged == [] ==> r.centroid == r.bboxMin == r.bboxMax == ORIGIN)
    && (merged != [] ==> r.centroid == Mean(merged) && IsBox(merged, r.bboxMin, r.bboxMax))
  }

  method MergeSplats(decode: Decoder, round: Rounding, splats: seq<Splat>, size: real)
    returns (r: Result<MergeResult, MergeError>, ghost parts: seq<seq<Point>>, ghost points: seq<Point>,
             ghost merged: seq<Point>)
    ensures if splats == [] then r == Err(Empty)
            else match LoadAll(decode, splats)
                 case Err(e) => r == Err(e)
                 case Ok(all) => r.Ok? && points == all && Reports(points, |splats|, size, round, merged, r.value)
    ensures r.Ok? ==> AllLoad(decode, splats, parts) && IsUnion(parts, points)
    ensures r.Ok? ==> r.value.inputPoints == Offset(parts, |splats|)
  {
    parts, points, merged := [], [], [];
    if splats == [] {
      r := Err(Empty);
      return;
    }
    var all: seq<Point> := [];
    for i := 0 to |splats|
      invariant LoadAll(decode, splats[..i]) == Ok(all)
    {
      assert splats[..i + 1][..i] == splats[..i];
      var loaded := Load(decode, splats[i]);
      match loaded {
        case Err(e) =>
          ErrorStays(decode, splats, i + 1);
          r := Err(e);
          return;
        case Ok(pts) =>
          all := all + pts;
      }
    }
    assert splats[..|splats|] == splats;
    var cloud := VoxelDownsample(all, size);
    NeverMore(all, size, cloud);
    var pct := if |all| > 0 then 100.0 * (1.0 - |cloud| as real / |all| as real) else 0.0;
    var centroid, low, high := ORIGIN, ORIGIN, ORIGIN;
    if cloud != [] {
      centroid, low, high := Statistics(cloud);
    }
    var text := Ply.WritePlyText(VerticesOf(round, cloud));
    r := Ok(MergeResult(text, |splats|, |all|, |cloud|, pct, centroid, low, high));
    points, merged := all, cloud;
    parts := LoadedIsUnion(decode, splats);
  }

  predicate HalfMillionth(v: real, u: real) {
    -0.0000005 <= u - v <= 0.0000005
  }

  predicate Close(p: Point, q: Point) {
    HalfMillionth(p.x, q.x) && HalfMillionth(p.y, q.y) && HalfMillionth(p.z, q.z)
  }

  lemma NearIsClose(v: real, n: int)
    requires Near(v, n)
    ensures HalfMillionth(v, n as real / MILLION)
  {
  }

  /** The text of a merge reads back as its cloud, point for point, to half a millionth on each axis. */
  lemma MergedTextReads(points: seq<Point>, sources: nat, size: real, round: Rounding, merged: seq<Point>,
                        r: MergeResult)
    requires IsRounding(round) && Reports(points, sources, size, round, merged, r) && |merged| < Ply.USIZE_LIMIT
    ensures var rs := Ply.ParsePly(r.mergedPly);
            && rs.Some? && |FinitePoints(rs.value)| == |rs.value| == |merged| == r.outputPoints
            && forall i :: 0 <= i < |merged| ==> Close(merged[i], FinitePoints(rs.value)[i])
  {
    var vs := VerticesOf(round, merged);
    Ply.RoundTrip(vs, "");
    assert Ply.WritePly(vs) + "" == Ply.WritePly(vs);
    WrittenAreFinite(vs);
    forall i | 0 <= i < |merged| ensures Close(merged[i], PointsOf(vs)[i]) {
      NearIsClose(merged[i].x, round(merged[i].x));
      NearIsClose(merged[i].y, round(merged[i].y));
      NearIsClose(merged[i].z, round(merged[i].z));
    }
  }

  lemma RatioBetween(m: nat, n: nat)
    requires 0 < m <= n
    ensures 0.0 < m as real / n as real <= 1.0
  {
  }

  /** A report's box encloses its centroid and is enclosed by the input: on every axis, between
      two input points. And the reduction is a percentage below 100. */
  lemma ReportIsSane(points: seq<Point>, sources: nat, size: real, round: Rounding, merged: seq<Point>,
                     r: MergeResult, a: Axis)
    returns (low: Point, high: Point)
    requires Reports(points, sources, size, round, merged, r) && points != []
    ensures low in points && high in points
    ensures At(low, a) <= At(r.bboxMin, a) <= At(r.centroid, a) <= At(r.bboxMax, a) <= At(high, a)
    ensures 0.0 <= r.reductionPct < 100.0
  {
    NeverMore(points, size, merged);
    RatioBetween(|merged|, |points|);
    var axis := match a case X => 0 case Y => 1 case Z => 2;
    var i :| 0 <= i < |merged| && Coord(merged[i], axis) == Coord(r.bboxMin, axis);
    var j :| 0 <= j < |merged| && Coord(merged[j], axis) == Coord(r.bboxMax, axis);
    var l, h := MeanBetween(merged, a);
    var k :| 0 <= k < |merged| && merged[k] == l;
    var n :| 0 <= n < |merged| && merged[n] == h;
    assert Coord(r.bboxMin, axis) <= Coord(merged[k], axis) && Coord(merged[n], axis) <= Coord(r.bboxMax, axis);
    var low2, high2;
    low, low2 := InBoundingBox(points, size, merged, merged[i], a);
    high2, high := InBoundingBox(points, size, merged, merged[j], a);
  }
}
