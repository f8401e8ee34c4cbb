/** sovereign-pipeline/src/merge.rs: one representative point per voxel cell. */
module Voxel {
  import opened Sequences

  datatype Point = Point(x: real, y: real, z: real)

  datatype Key = Key(x: int, y: int, z: int)

  const I64_MIN: int := -0x8000_0000_0000_0000
  const I64_MAX: int := 0x7fff_ffff_ffff_ffff

  /** The saturating cast of a floored f64 to i64. */
  function ToI64(n: int): int {
    if n < I64_MIN then I64_MIN else if n > I64_MAX then I64_MAX else n
  }

  function CellOf(v: real, size: real): int
    requires size > 0.0
  {
    ToI64((v / size).Floor)
  }

  lemma DivTimes(x: real, n: real)
    requires n > 0.0
    ensures x / n * n == x
  {
  }

  lemma ScaleStrict(x: real, y: real, n: real)
    requires x < y && n > 0.0
    ensures x * n < y * n
  {
  }

  /** The stretch of an axis that belongs to cell c: it starts c cell sizes from the origin and is one cell size
      long. The first and the last cell that fit an i64 also take everything beyond them. */
  predicate Within(v: real, size: real, c: int) {
    && I64_MIN <= c <= I64_MAX
    && (c == I64_MIN || c as real * size <= v)
    && (c == I64_MAX || v < (c + 1) as real * size)
  }

  lemma BoundBelow(v: real, size: real, c: int)
    requires size > 0.0
    ensures c <= (v / size).Floor <==> c as real * size <= v
  {
    DivTimes(v, size);
    if v / size < c as real {
      ScaleStrict(v / size, c as real, size);
    } else if v / size > c as real {
      ScaleStrict(c as real, v / size, size);
    }
  }

  /** A cell is exactly its stretch. */
  lemma CellIff(v: real, size: real, c: int)
    requires size > 0.0
    ensures CellOf(v, size) == c <==> Within(v, size, c)
  {
    BoundBelow(v, size, c);
    BoundBelow(v, size, c + 1);
  }

  function KeyOf(p: Point, size: real): Key
    requires size > 0.0
  {
    Key(CellOf(p.x, size), CellOf(p.y, size), CellOf(p.z, size))
  }

  const ORIGIN: Point := Point(0.0, 0.0, 0.0)

  function Add(p: Point, q: Point): Point {
    Point(p.x + q.x, p.y + q.y, p.z + q.z)
  }

  function Over(p: Point, n: nat): Point
    requires n > 0
  {
    Point(p.x / n as real, p.y / n as real, p.z / n as real)
  }

  function Times(p: Point, n: nat): Point {
    Point(p.x * n as real, p.y * n as real, p.z * n as real)
  }

  function Sum(ps: seq<Point>): Point {
    if ps == [] then ORIGIN else Add(Sum(ps[..|ps| - 1]), ps[|ps| - 1])
  }

  function Mean(ps: seq<Point>): Point
    requires ps != []
  {
    Over(Sum(ps), |ps|)
  }

  /** The points that fall into one cell, in input order. */
  function Group(ps: seq<Point>, size: real, key: Key): (g: seq<Point>)
    requires size > 0.0
    ensures |g| <= |ps|
    ensures forall p :: p in g <==> p in ps && KeyOf(p, size) == key
  {
    if ps == [] then []
    else
      var front, last := Group(ps[..|ps| - 1], size, key), ps[|ps| - 1];
      assert ps == ps[..|ps| - 1] + [last];
      if KeyOf(last, size) == key then front + [last] else front
  }

  predicate InBox(p: Point, size: real, k: Key) {
    Within(p.x, size, k.x) && Within(p.y, size, k.y) && Within(p.z, size, k.z)
  }

  /** The points in one box of the grid, in input order. */
  function Inside(ps: seq<Point>, size: real, k: Key): seq<Point> {
    if ps == [] then []
    else
      var front, last := Inside(ps[..|ps| - 1], size, k), ps[|ps| - 1];
      if InBox(last, size, k) then front + [last] else front
  }

  /** The points of one key are those of one box. */
  lemma {:induction false} GroupIsInside(ps: seq<Point>, size: real, k: Key)
    requires size > 0.0
    ensures Group(ps, size, k) == Inside(ps, size, k)
  {
    if ps != [] {
      var p := ps[|ps| - 1];
      CellIff(p.x, size, k.x);
      CellIff(p.y, size, k.y);
      CellIff(p.z, size, k.z);
      GroupIsInside(ps[..|ps| - 1], size, k);
    }
  }

  // ----- the fold over the points

  datatype Cell = Cell(sum: Point, n: nat)

  /** What the cell of key k should hold after these points. */
  function CellFor(points: seq<Point>, size: real, k: Key): Cell
    requires size > 0.0
  {
    Cell(Sum(Group(points, size, k)), |Group(points, size, k)|)
  }

  lemma SumAppend(ps: seq<Point>, p: Point)
    ensures Sum(ps + [p]) == Add(Sum(ps), p)
  {
    assert (ps + [p])[..|ps|] == ps;
  }

  lemma CellForAppend(front: seq<Point>, p: Point, size: real, k: Key)
    requires size > 0.0
    ensures var c := CellFor(front, size, k);
            CellFor(front + [p], size, k) == if KeyOf(p, size) == k then Cell(Add(c.sum, p), c.n + 1) else c
  {
    assert (front + [p])[..|front|] == front;
    SumAppend(Group(front, size, k), p);
  }

  method FillCells(points: seq<Point>, size: real) returns (cells: map<Key, Cell>)
    requires size > 0.0
    ensures forall k :: k in cells <==> Group(points, size, k) != []
    ensures forall k :: k in cells ==> cells[k] == CellFor(points, size, k)
  {
    cells := map[];
    for i := 0 to |points|
      invariant forall k :: CellFor(points[..i], size, k) == if k in cells then cells[k] else Cell(ORIGIN, 0)
      invariant forall k :: k in cells ==> cells[k].n > 0
    {
      var p := points[i];
      var key := KeyOf(p, size);
      assert points[..i + 1] == points[..i] + [p];
      forall k ensures CellFor(points[..i + 1], size, k)
                       == var c := CellFor(points[..i], size, k);
                          if key == k then Cell(Add(c.sum, p), c.n + 1) else c {
        CellForAppend(points[..i], p, size, k);
      }
      var entry := if key in cells then cells[key] else Cell(ORIGIN, 0);
      cells := cells[key := Cell(Add(entry.sum, p), entry.n + 1)];
    }
    assert points[..|points|] == points;
    assert forall k :: CellFor(points, size, k).n > 0 <==> Group(points, size, k) != [];
  }

  // ----- the specification: group by cell, average each group, in any order

  /** keys lists every occupied cell once. */
  ghost predicate Occupied(points: seq<Point>, size: real, keys: seq<Key>)
    requires size > 0.0
  {
    Distinct(keys) && forall k :: k in keys <==> Group(points, size, k) != []
  }

  function MeanAt(points: seq<Point>, size: real, k: Key): Point
    requires size > 0.0
  {
    var g := Group(points, size, k);
    if g == [] then ORIGIN else Mean(g)
  }

  function Means(points: seq<Point>, size: real, keys: seq<Key>): (r: seq<Point>)
    requires size > 0.0
    ensures |r| == |keys|
    ensures forall i :: 0 <= i < |keys| ==> r[i] == MeanAt(points, size, keys[i])
  {
    seq(|keys|, i requires 0 <= i < |keys| => MeanAt(points, size, keys[i]))
  }

  /** The results the hash map may deliver: the means of the occupied cells in some order. */
  ghost predicate Downsampled(points: seq<Point>, size: real, out: seq<Point>) {
    if size <= 0.0 || points == [] then out == points
    else exists keys: seq<Key> :: Occupied(points, size, keys) && out == Means(points, size, keys)
  }

  /** One output per box that holds a point: the mean of the points in that box. */
  ghost predicate Grid(points: seq<Point>, size: real, boxes: seq<Key>, out: seq<Point>) {
    && Distinct(boxes) && |boxes| == |out|
    && (forall k :: k in boxes <==> Inside(points, size, k) != [])
    && forall i :: 0 <= i < |out| ==>
         Inside(points, size, boxes[i]) != [] && out[i] == Mean(Inside(points, size, boxes[i]))
  }

  ghost predicate Gridded(points: seq<Point>, size: real, out: seq<Point>) {
    exists boxes: seq<Key> :: Grid(points, size, boxes, out)
  }

  lemma MeansAreGrid(points: seq<Point>, size: real, keys: seq<Key>)
    requires size > 0.0 && Occupied(points, size, keys)
    ensures Grid(points, size, keys, Means(points, size, keys))
  {
    forall k ensures Group(points, size, k) == Inside(points, size, k) {
      GroupIsInside(points, size, k);
    }
    assert forall i :: 0 <= i < |keys| ==> keys[i] in keys;
  }

  lemma GridIsMeans(points: seq<Point>, size: real, boxes: seq<Key>, out: seq<Point>)
    requires size > 0.0 && Grid(points, size, boxes, out)
    ensures Occupied(points, size, boxes) && out == Means(points, size, boxes)
  {
    forall k ensures Group(points, size, k) == Inside(points, size, k) {
      GroupIsInside(points, size, k);
    }
  }

  /** Said without keys: every output is the mean of exactly the points of one box of the grid. */
  lemma DownsampledIff(points: seq<Point>, size: real, out: seq<Point>)
    ensures Downsampled(points, size, out)
            <==> if size <= 0.0 || points == [] then out == points else Gridded(points, size, out)
  {
    if size > 0.0 && points != [] {
      if Downsampled(points, size, out) {
        var keys: seq<Key> :| Occupied(points, size, keys) && out == Means(points, size, keys);
        MeansAreGrid(points, size, keys);
      }
      if Gridded(points, size, out) {
        var boxes: seq<Key> :| Grid(points, size, boxes, out);
        GridIsMeans(points, size, boxes, out);
      }
    }
  }

  method VoxelDownsample(points: seq<Point>, size: real) returns (out: seq<Point>)
    ensures Downsampled(points, size, out)
    ensures if size <= 0.0 || points == [] then out == points else Gridded(points, size, out)
  {
    if size <= 0.0 || points == [] {
      return points;
    }
    var cells := FillCells(points, size);
    out := [];
    ghost var keys: seq<Key> := [];
    var left := cells.Keys;
    while left != {}
      invariant left <= cells.Keys
      invariant Distinct(keys) && forall k :: k in keys <==> k in cells.Keys && k !in left
      invariant out == Means(points, size, keys)
    {
      var k :| k in left;
      out := out + [Over(cells[k].sum, cells[k].n)];
      keys := keys + [k];
      left := left - {k};
    }
    DownsampledIff(points, size, out);
  }

  // ----- reordering

  lemma Take<T>(s: seq<T>, p: T) returns (i: nat)
    requires p in s
    ensures i < |s| && s[i] == p
    ensures multiset(s[..i] + s[i + 1..]) == multiset(s) - multiset{p}
  {
    i :| 0 <= i < |s| && s[i] == p;
    assert s == s[..i] + [p] + s[i + 1..];
  }

  lemma {:induction false} GroupConcat(a: seq<Point>, b: seq<Point>, size: real, k: Key)
    requires size > 0.0
    ensures Group(a + b, size, k) == Group(a, size, k) + Group(b, size, k)
  {
    if b == [] {
      assert a + b == a;
    } else {
      assert (a + b)[..|a + b| - 1] == a + b[..|b| - 1];
      GroupConcat(a, b[..|b| - 1], size, k);
    }
  }

  lemma {:induction false} SumConcat(a: seq<Point>, b: seq<Point>)
    ensures Sum(a + b) == Add(Sum(a), Sum(b))
  {
    if b == [] {
      assert a + b == a;
    } else {
      assert (a + b)[..|a + b| - 1] == a + b[..|b| - 1];
      SumConcat(a, b[..|b| - 1]);
    }
  }

  lemma SumMiddle(a: seq<Point>, p: Point, b: seq<Point>)
    ensures Sum(a + [p] + b) == Add(Sum(a + b), p)
  {
    SumConcat(a + [p], b);
    SumAppend(a, p);
    SumConcat(a, b);
  }

  /** A group's size and sum do not depend on the order of the input. */
  lemma {:induction false} GroupReordered(s: seq<Point>, t: seq<Point>, size: real, k: Key)
    requires size > 0.0 && multiset(s) == multiset(t)
    ensures |Group(s, size, k)| == |Group(t, size, k)|
    ensures Sum(Group(s, size, k)) == Sum(Group(t, size, k))
    decreases |s|
  {
    assert |s| == |multiset(s)| == |multiset(t)| == |t|;
    if s != [] {
      var front, p := s[..|s| - 1], s[|s| - 1];
      assert s == front + [p];
      assert p in multiset(t);
      var i := Take(t, p);
      var a, b := t[..i], t[i + 1..];
      assert t == a + [p] + b;
      GroupReordered(front, a + b, size, k);
      GroupConcat(a, b, size, k);
      GroupConcat(a + [p], b, size, k);
      GroupConcat(a, [p], size, k);
      assert [p][..0] == [];
      if KeyOf(p, size) == k {
        assert Group([p], size, k) == [p];
        SumMiddle(Group(a, size, k), p, Group(b, size, k));
        SumAppend(Group(front, size, k), p);
      } else {
        assert Group([p], size, k) == [];
      }
    }
  }

  lemma {:induction false} OnceEach(a: seq<Key>, k: Key)
    requires Distinct(a)
    ensures multiset(a)[k] == if k in a then 1 else 0
  {
    if a != [] {
      var front, last := a[..|a| - 1], a[|a| - 1];
      assert a == front + [last];
      OnceEach(front, k);
      assert last !in front;
    }
  }

  lemma {:induction false} DistinctMultiset(a: seq<Key>, b: seq<Key>)
    requires Distinct(a) && Distinct(b) && forall k :: k in a <==> k in b
    ensures multiset(a) == multiset(b)
  {
    forall k ensures multiset(a)[k] == multiset(b)[k] {
      OnceEach(a, k);
      OnceEach(b, k);
    }
  }

  function MapTo(f: Key -> Point, keys: seq<Key>): seq<Point> {
    if keys == [] then [] else MapTo(f, keys[..|keys| - 1]) + [f(keys[|keys| - 1])]
  }

  lemma {:induction false} MapToConcat(f: Key -> Point, a: seq<Key>, b: seq<Key>)
    ensures MapTo(f, a + b) == MapTo(f, a) + MapTo(f, b)
  {
    if b == [] {
      assert a + b == a;
    } else {
      assert (a + b)[..|a + b| - 1] == a + b[..|b| - 1];
      MapToConcat(f, a, b[..|b| - 1]);
    }
  }

  lemma MapToMiddle(f: Key -> Point, a: seq<Key>, k: Key, b: seq<Key>)
    ensures multiset(MapTo(f, a + [k] + b)) == multiset(MapTo(f, a + b)) + multiset{f(k)}
  {
    MapToConcat(f, a + [k], b);
    MapToConcat(f, a, b);
    assert (a + [k])[..|a|] == a;
  }

  /** Mapping one function over two orders of the same keys gives two orders of the same points. */
  lemma {:induction false} MapReordered(f: Key -> Point, a: seq<Key>, b: seq<Key>)
    requires multiset(a) == multiset(b)
    ensures multiset(MapTo(f, a)) == multiset(MapTo(f, b))
    decreases |a|
  {
    assert |a| == |multiset(a)| == |multiset(b)| == |b|;
    if a != [] {
      var front, k := a[..|a| - 1], a[|a| - 1];
      assert a == front + [k];
      assert k in multiset(b);
      var i := Take(b, k);
      assert b == b[..i] + [k] + b[i + 1..];
      MapReordered(f, front, b[..i] + b[i + 1..]);
      MapToMiddle(f, b[..i], k, b[i + 1..]);
    }
  }

  lemma {:induction false} MapToAt(f: Key -> Point, keys: seq<Key>, out: seq<Point>)
    requires |out| == |keys| && forall i :: 0 <= i < |keys| ==> out[i] == f(keys[i])
    ensures out == MapTo(f, keys)
  {
    if keys != [] {
      var n := |keys| - 1;
      MapToAt(f, keys[..n], out[..n]);
      assert out == out[..n] + [out[n]];
    }
  }

  lemma SameImage(f: Key -> Point, a: seq<Key>, b: seq<Key>, u: seq<Point>, v: seq<Point>)
    requires Distinct(a) && Distinct(b) && forall k :: k in a <==> k in b
    requires |u| == |a| && forall i :: 0 <= i < |a| ==> u[i] == f(a[i])
    requires |v| == |b| && forall i :: 0 <= i < |b| ==> v[i] == f(b[i])
    ensures multiset(u) == multiset(v)
  {
    DistinctMultiset(a, b);
    MapToAt(f, a, u);
    MapToAt(f, b, v);
    MapReordered(f, a, b);
  }

  lemma PermutedMeans(s: seq<Point>, t: seq<Point>, size: real, a: seq<Key>, b: seq<Key>)
    requires size > 0.0 && multiset(s) == multiset(t) && Occupied(s, size, a) && Occupied(t, size, b)
    ensures multiset(Means(s, size, a)) == multiset(Means(t, size, b))
  {
    forall k ensures MeanAt(s, size, k) == MeanAt(t, size, k) && (k in a <==> k in b) {
      GroupReordered(s, t, size, k);
    }
    SameImage((k: Key) => MeanAt(s, size, k), a, b, Means(s, size, a), Means(t, size, b));
  }

  /** Permuting the input permutes the output, whatever orders the hash map chooses. */
  lemma PermutationInvariant(s: seq<Point>, t: seq<Point>, size: real, u: seq<Point>, v: seq<Point>)
    requires multiset(s) == multiset(t)
    requires Downsampled(s, size, u) && Downsampled(t, size, v)
    ensures multiset(u) == multiset(v)
  {
    assert |s| == |multiset(s)| == |multiset(t)| == |t|;
    if size > 0.0 && s != [] {
      var a: seq<Key> :| Occupied(s, size, a) && u == Means(s, size, a);
      var b: seq<Key> :| Occupied(t, size, b) && v == Means(t, size, b);
      PermutedMeans(s, t, size, a, b);
    }
  }

  // ----- conservation

  /** The means, each weighted by how many points it stands for, summed over the given cells. */
  function WeightedSum(points: seq<Point>, size: real, keys: seq<Key>): Point
    requires size > 0.0
  {
    if keys == [] then ORIGIN
    else
      var k := keys[|keys| - 1];
      Add(WeightedSum(points, size, keys[..|keys| - 1]),
          Times(MeanAt(points, size, k), |Group(points, size, k)|))
  }

  lemma TimesOver(p: Point, n: nat)
    requires n > 0
    ensures Times(Over(p, n), n) == p
  {
    DivTimes(p.x, n as real);
    DivTimes(p.y, n as real);
    DivTimes(p.z, n as real);
  }

  lemma TimesMean(points: seq<Point>, size: real, k: Key)
    requires size > 0.0
    ensures Times(MeanAt(points, size, k), |Group(points, size, k)|) == Sum(Group(points, size, k))
  {
    var g := Group(points, size, k);
    if g == [] {
      assert Times(ORIGIN, 0) == ORIGIN;
    } else {
      TimesOver(Sum(g), |g|);
    }
  }

  function SumOver(f: Key -> Point, keys: seq<Key>): Point {
    if keys == [] then ORIGIN else Add(SumOver(f, keys[..|keys| - 1]), f(keys[|keys| - 1]))
  }

  function GroupSum(points: seq<Point>, size: real): Key -> Point
    requires size > 0.0
  {
    (k: Key) => Sum(Group(points, size, k))
  }

  lemma {:induction false} WeightedSumIsGroupSums(points: seq<Point>, size: real, keys: seq<Key>)
    requires size > 0.0
    ensures WeightedSum(points, size, keys) == SumOver(GroupSum(points, size), keys)
  {
    if keys != [] {
      WeightedSumIsGroupSums(points, size, keys[..|keys| - 1]);
      TimesMean(points, size, keys[|keys| - 1]);
    }
  }

  /** Raising one value of f by p raises its sum over distinct keys by p, if the key is listed. */
  lemma {:induction false} SumOverBump(f: Key -> Point, g: Key -> Point, keys: seq<Key>, k0: Key, p: Point)
    requires Distinct(keys) && forall k :: g(k) == if k == k0 then Add(f(k), p) else f(k)
    ensures SumOver(g, keys) == if k0 in keys then Add(SumOver(f, keys), p) else SumOver(f, keys)
  {
    if keys != [] {
      var rest, k := keys[..|keys| - 1], keys[|keys| - 1];
      assert keys == rest + [k] && k !in rest;
      SumOverBump(f, g, rest, k0, p);
    }
  }

  lemma {:induction false} SumOverZero(f: Key -> Point, keys: seq<Key>)
    requires forall k :: f(k) == ORIGIN
    ensures SumOver(f, keys) == ORIGIN
  {
    if keys != [] {
      SumOverZero(f, keys[..|keys| - 1]);
    }
  }

  lemma {:induction false} GroupSumsTotal(points: seq<Point>, size: real, keys: seq<Key>)
    requires size > 0.0 && Distinct(keys)
    requires forall p :: p in points ==> KeyOf(p, size) in keys
    ensures SumOver(GroupSum(points, size), keys) == Sum(points)
  {
    if points == [] {
      SumOverZero(GroupSum(points, size), keys);
    } else {
      var front, p := points[..|points| - 1], points[|points| - 1];
      assert points == front + [p];
      GroupSumsTotal(front, size, keys);
      forall k ensures GroupSum(points, size)(k)
                       == var s := GroupSum(front, size)(k); if k == KeyOf(p, size) then Add(s, p) else s {
        CellForAppend(front, p, size, k);
      }
      SumOverBump(GroupSum(front, size), GroupSum(points, size), keys, KeyOf(p, size), p);
    }
  }

  /** The count-weighted sum of the output is the sum of the input. */
  lemma MassConserved(points: seq<Point>, size: real, keys: seq<Key>)
    requires size > 0.0 && Occupied(points, size, keys)
    ensures WeightedSum(points, size, keys) == Sum(points)
  {
    forall p | p in points ensures KeyOf(p, size) in keys {
      assert p in Group(points, size, KeyOf(p, size));
    }
    GroupSumsTotal(points, size, keys);
    WeightedSumIsGroupSums(points, size, keys);
  }

  // ----- means stay in their cell

  datatype Axis = X | Y | Z

  function At(p: Point, a: Axis): real {
    match a case X => p.x case Y => p.y case Z => p.z
  }

  function Multiple(v: real, n: nat): real {
    if n == 0 then 0.0 else Multiple(v, n - 1) + v
  }

  lemma {:induction false} MultipleMonotone(v: real, w: real, n: nat)
    requires v <= w
    ensures Multiple(v, n) <= Multiple(w, n)
  {
    if n > 0 {
      MultipleMonotone(v, w, n - 1);
    }
  }

  lemma {:induction false} MultipleIsProduct(v: real, n: nat)
    ensures Multiple(v, n) == v * n as real
  {
    if n > 0 {
      MultipleIsProduct(v, n - 1);
      assert v * n as real == v * (n - 1) as real + v;
    }
  }

  /** Some point of the list bounds its sum from below on this axis, and some from above. */
  lemma {:induction false} SumBetween(ps: seq<Point>, a: Axis) returns (low: Point, high: Point)
    requires ps != []
    ensures low in ps && high in ps
    ensures Multiple(At(low, a), |ps|) <= At(Sum(ps), a) <= Multiple(At(high, a), |ps|)
  {
    var front, last := ps[..|ps| - 1], ps[|ps| - 1];
    assert ps == front + [last];
    if front == [] {
      low, high := last, last;
    } else {
      var l, h := SumBetween(front, a);
      low := if At(last, a) < At(l, a) then last else l;
      high := if At(last, a) > At(h, a) then last else h;
      MultipleMonotone(At(low, a), At(l, a), |front|);
      MultipleMonotone(At(h, a), At(high, a), |front|);
    }
  }

  lemma DivBetween(x: real, s: real, y: real, n: real)
    requires n > 0.0 && x * n <= s <= y * n
    ensures x <= s / n <= y
  {
    DivTimes(s, n);
    if s / n < x {
      ScaleStrict(s / n, x, n);
    } else if s / n > y {
      ScaleStrict(y, s / n, n);
    }
  }

  lemma MeanBetween(ps: seq<Point>, a: Axis) returns (low: Point, high: Point)
    requires ps != []
    ensures low in ps && high in ps && At(low, a) <= At(Mean(ps), a) <= At(high, a)
  {
    low, high := SumBetween(ps, a);
    MultipleIsProduct(At(low, a), |ps|);
    MultipleIsProduct(At(high, a), |ps|);
    DivBetween(At(low, a), At(Sum(ps), a), At(high, a), |ps| as real);
  }

  lemma CellMonotone(x: real, y: real, size: real)
    requires size > 0.0 && x <= y
    ensures CellOf(x, size) <= CellOf(y, size)
  {
    assert x / size <= y / size;
  }

  function CellAt(k: Key, a: Axis): int {
    match a case X => k.x case Y => k.y case Z => k.z
  }

  lemma MeanCell(ps: seq<Point>, size: real, k: Key, a: Axis)
    requires size > 0.0 && ps != [] && forall p :: p in ps ==> KeyOf(p, size) == k
    ensures CellOf(At(Mean(ps), a), size) == CellAt(k, a)
  {
    var low, high := MeanBetween(ps, a);
    CellMonotone(At(low, a), At(Mean(ps), a), size);
    CellMonotone(At(Mean(ps), a), At(high, a), size);
    assert CellOf(At(low, a), size) == CellAt(KeyOf(low, size), a);
    assert CellOf(At(high, a), size) == CellAt(KeyOf(high, size), a);
  }

  /** A cell is convex, so the mean of its points lies in it, saturated cells included. */
  lemma MeanInCell(points: seq<Point>, size: real, k: Key)
    requires size > 0.0 && Group(points, size, k) != []
    ensures KeyOf(MeanAt(points, size, k), size) == k
  {
    var g := Group(points, size, k);
    MeanCell(g, size, k, X);
    MeanCell(g, size, k, Y);
    MeanCell(g, size, k, Z);
  }

  /** No output leaves the bounding box of the input. */
  lemma InBoundingBox(points: seq<Point>, size: real, out: seq<Point>, o: Point, a: Axis)
    returns (low: Point, high: Point)
    requires Downsampled(points, size, out) && o in out
    ensures low in points && high in points && At(low, a) <= At(o, a) <= At(high, a)
  {
    if size <= 0.0 || points == [] {
      low, high := o, o;
    } else {
      var keys: seq<Key> :| Occupied(points, size, keys) && out == Means(points, size, keys);
      var i :| 0 <= i < |out| && out[i] == o;
      assert keys[i] in keys;
      low, high := MeanBetween(Group(points, size, keys[i]), a);
    }
  }

  // ----- a second pass changes nothing

  lemma GroupMiddle(a: seq<Point>, p: Point, b: seq<Point>, size: real, k: Key)
    requires size > 0.0 && KeyOf(p, size) == k
    ensures Group(a + [p] + b, size, k) == Group(a, size, k) + [p] + Group(b, size, k)
  {
    GroupConcat(a + [p], b, size, k);
    assert (a + [p])[..|a|] == a;
  }

  lemma {:induction false} NoneOfKey(ps: seq<Point>, size: real, k: Key)
    requires size > 0.0 && forall j :: 0 <= j < |ps| ==> KeyOf(ps[j], size) != k
    ensures Group(ps, size, k) == []
  {
    if ps != [] {
      NoneOfKey(ps[..|ps| - 1], size, k);
    }
  }

  lemma SingletonGroup(out: seq<Point>, size: real, keys: seq<Key>, i: nat)
    requires size > 0.0 && |out| == |keys| && Distinct(keys) && i < |out|
    requires forall j :: 0 <= j < |out| ==> KeyOf(out[j], size) == keys[j]
    ensures Group(out, size, keys[i]) == [out[i]]
  {
    var a, p, b := out[..i], out[i], out[i + 1..];
    assert out == a + [p] + b;
    GroupMiddle(a, p, b, size, keys[i]);
    forall j | 0 <= j < |a| ensures KeyOf(a[j], size) != keys[i] {
      assert a[j] == out[j];
    }
    forall j | 0 <= j < |b| ensures KeyOf(b[j], size) != keys[i] {
      assert b[j] == out[i + 1 + j];
    }
    NoneOfKey(a, size, keys[i]);
    NoneOfKey(b, size, keys[i]);
  }

  lemma MeanOfOne(p: Point)
    ensures Mean([p]) == p
  {
    assert [p][..0] == [];
    assert Sum([p]) == p;
  }

  lemma OwnCells(points: seq<Point>, size: real, keys: seq<Key>)
    requires size > 0.0 && Occupied(points, size, keys)
    ensures forall j :: 0 <= j < |keys| ==> KeyOf(Means(points, size, keys)[j], size) == keys[j]
  {
    forall j | 0 <= j < |keys| ensures KeyOf(Means(points, size, keys)[j], size) == keys[j] {
      assert keys[j] in keys;
      MeanInCell(points, size, keys[j]);
    }
  }

  lemma SameCells(out: seq<Point>, size: real, a: seq<Key>, k: Key)
    requires size > 0.0 && |out| == |a| && Distinct(a)
    requires forall j :: 0 <= j < |out| ==> KeyOf(out[j], size) == a[j]
    ensures k in a <==> Group(out, size, k) != []
  {
    if Group(out, size, k) != [] {
      var p := Group(out, size, k)[0];
      assert p in Group(out, size, k);
      var j :| 0 <= j < |out| && out[j] == p;
      assert a[j] == k;
    }
    if k in a {
      var i :| 0 <= i < |a| && a[i] == k;
      SingletonGroup(out, size, a, i);
    }
  }

  lemma SecondPass(out: seq<Point>, size: real, a: seq<Key>, b: seq<Key>)
    requires size > 0.0 && |out| == |a| && Distinct(a) && Occupied(out, size, b)
    requires forall j :: 0 <= j < |out| ==> KeyOf(out[j], size) == a[j]
    ensures multiset(Means(out, size, b)) == multiset(out)
  {
    forall k ensures k in a <==> k in b {
      SameCells(out, size, a, k);
    }
    forall i | 0 <= i < |a| ensures out[i] == MeanAt(out, size, a[i]) {
      SingletonGroup(out, size, a, i);
      MeanOfOne(out[i]);
    }
    SameImage((k: Key) => MeanAt(out, size, k), a, b, out, Means(out, size, b));
  }

  /** Downsampling the output again with the same cell size gives the same points. */
  lemma Idempotent(points: seq<Point>, size: real, out: seq<Point>, again: seq<Point>)
    requires Downsampled(points, size, out) && Downsampled(out, size, again)
    ensures multiset(again) == multiset(out)
  {
    if size > 0.0 && points != [] && out != [] {
      var a: seq<Key> :| Occupied(points, size, a) && out == Means(points, size, a);
      var b: seq<Key> :| Occupied(out, size, b) && again == Means(out, size, b);
      OwnCells(points, size, a);
      SecondPass(out, size, a, b);
    }
  }

  /** Distinct cells that all hold a point are at most as many as the points. */
  lemma {:induction false} DistinctFit(points: seq<Point>, size: real, keys: seq<Key>)
    requires size > 0.0 && Distinct(keys) && forall k :: k in keys ==> Group(points, size, k) != []
    ensures |keys| <= |points|
    decreases |points|
  {
    if keys != [] {
      assert keys[0] in keys;
      var n := |points| - 1;
      var last := KeyOf(points[n], size);
      if last in keys {
        var i :| 0 <= i < |keys| && keys[i] == last;
        var rest := keys[..i] + keys[i + 1..];
        forall k | k in rest ensures Group(points[..n], size, k) != [] {
          assert k in keys && k != last;
        }
        DistinctFit(points[..n], size, rest);
      } else {
        DistinctFit(points[..n], size, keys);
      }
    }
  }

  /** One output per occupied cell: never more points than came in. */
  lemma NeverMore(points: seq<Point>, size: real, out: seq<Point>)
    requires Downsampled(points, size, out)
    ensures |out| <= |points| && (points != [] ==> out != [])
  {
    if size > 0.0 && points != [] {
      var keys: seq<Key> :| Occupied(points, size, keys) && out == Means(points, size, keys);
      assert points[0] in Group(points, size, KeyOf(points[0], size));
      assert KeyOf(points[0], size) in keys;
      DistinctFit(points, size, keys);
    }
  }
}
