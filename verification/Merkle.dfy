/** sovereign-types/src/merkle.rs: the commitment tree over 32-byte leaves. */
module Merkle {
  import opened Wire
  import opened Wrappers

  /** Doubles p until it reaches n. */
  function DoubleUntil(p: nat, n: nat): (r: nat)
    requires p > 0
    ensures r >= n && r >= p
    ensures p < n ==> r % 2 == 0 && r / 2 < n
    decreases n - p
  {
    if p >= n then p else DoubleUntil(2 * p, n)
  }

  /** usize::next_power_of_two */
  function NextPowerOfTwo(n: nat): (r: nat)
    ensures r >= n && r >= 1
    ensures n >= 2 ==> r % 2 == 0 && r / 2 < n
  {
    DoubleUntil(1, n)
  }

  /** The split point of a node with n leaves. */
  function Mid(n: nat): (m: nat)
    requires n >= 2
    ensures 0 < m < n <= 2 * m
  {
    NextPowerOfTwo(n) / 2
  }

  /** What an inner node hashes. */
  function NodeMessage(left: Bytes, right: Bytes): (r: Bytes) {
    left + right
  }

  function CombineLeaves(h: HashFn, leaves: seq<Hash>): Hash
    requires leaves != []
    decreases |leaves|
  {
    if |leaves| == 1 then leaves[0]
    else
      var mid := NextPowerOfTwo(|leaves|) / 2;
      var left := CombineLeaves(h, leaves[..if mid < |leaves| then mid else |leaves|]);
      var right := if mid < |leaves| then CombineLeaves(h, leaves[mid..]) else left;
      h(NodeMessage(left, right))
  }

  /** The recursion only ever takes the two-sided branch: a node is never paired with itself. */
  lemma CombineSplits(h: HashFn, leaves: seq<Hash>)
    requires |leaves| >= 2
    ensures var m := Mid(|leaves|);
            CombineLeaves(h, leaves) == h(NodeMessage(CombineLeaves(h, leaves[..m]), CombineLeaves(h, leaves[m..])))
  {
  }

  // ----- the bottom-up reading: pair neighbours level by level, promote an odd last node

  function LevelUp(h: HashFn, level: seq<Hash>): (r: seq<Hash>)
    ensures |r| == (|level| + 1) / 2
  {
    if |level| < 2 then level
    else
      var left: Bytes, right: Bytes := level[0], level[1];
      [h(left + right)] + LevelUp(h, level[2..])
  }

  function BottomUp(h: HashFn, leaves: seq<Hash>): Hash
    requires leaves != []
    decreases |leaves|
  {
    if |leaves| == 1 then leaves[0] else BottomUp(h, LevelUp(h, leaves))
  }

  lemma {:induction false} DoubleUntilHalves(p: nat, n: nat)
    requires p > 0
    ensures DoubleUntil(2 * p, n) == 2 * DoubleUntil(p, (n + 1) / 2)
    decreases n - p
  {
    if p < (n + 1) / 2 {
      DoubleUntilHalves(2 * p, n);
    }
  }

  /** One level up, the split point is half of what it was. */
  lemma MidHalves(n: nat)
    requires n >= 3
    ensures Mid(n) == 2 * Mid((n + 1) / 2)
  {
    DoubleUntilHalves(1, n);
    assert NextPowerOfTwo(n) == DoubleUntil(2, n);
  }

  lemma {:induction false} LevelUpConcat(h: HashFn, left: seq<Hash>, right: seq<Hash>)
    requires |left| % 2 == 0
    ensures LevelUp(h, left + right) == LevelUp(h, left) + LevelUp(h, right)
  {
    if left == [] {
      assert left + right == right;
    } else {
      var all := left + right;
      assert all[0] == left[0] && all[1] == left[1] && all[2..] == left[2..] + right;
      LevelUpConcat(h, left[2..], right);
    }
  }

  lemma PartsOfConcat<T>(s: seq<T>, t: seq<T>)
    ensures (s + t)[..|s|] == s && (s + t)[|s|..] == t
  {
  }

  lemma CombineJoin(h: HashFn, left: seq<Hash>, right: seq<Hash>)
    requires left != [] && right != [] && |left| == Mid(|left + right|)
    ensures CombineLeaves(h, left + right) == h(NodeMessage(CombineLeaves(h, left), CombineLeaves(h, right)))
  {
    CombineSplits(h, left + right);
    PartsOfConcat(left, right);
  }

  /** Replacing the leaves by their first level of nodes leaves the root unchanged. */
  lemma {:induction false} CombineLevelUp(h: HashFn, leaves: seq<Hash>)
    requires leaves != []
    ensures CombineLeaves(h, LevelUp(h, leaves)) == CombineLeaves(h, leaves)
    decreases |leaves|
  {
    if |leaves| == 2 {
      assert LevelUp(h, leaves) == [h(NodeMessage(leaves[0], leaves[1]))];
      CombineSplits(h, leaves);
    } else if |leaves| > 2 {
      var m := Mid(|leaves|);
      var left, right := leaves[..m], leaves[m..];
      MidHalves(|leaves|);
      assert leaves == left + right;
      LevelUpConcat(h, left, right);
      CombineJoin(h, left, right);
      CombineJoin(h, LevelUp(h, left), LevelUp(h, right));
      CombineLevelUp(h, left);
      CombineLevelUp(h, right);
    }
  }

  /** The recursive split computes the level-by-level tree. */
  lemma {:induction false} CombineIsBottomUp(h: HashFn, leaves: seq<Hash>)
    requires leaves != []
    ensures CombineLeaves(h, leaves) == BottomUp(h, leaves)
    decreases |leaves|
  {
    if |leaves| > 1 {
      CombineLevelUp(h, leaves);
      CombineIsBottomUp(h, LevelUp(h, leaves));
    }
  }

  // ----- how many leaves

  lemma CombineBoth(h: HashFn, al: seq<Hash>, ar: seq<Hash>, bl: seq<Hash>, br: seq<Hash>)
    requires al != [] && ar != [] && |al| == Mid(|al + ar|)
    requires bl != [] && br != [] && |bl| == Mid(|bl + br|)
    requires CombineLeaves(h, al) == CombineLeaves(h, bl) && CombineLeaves(h, ar) == CombineLeaves(h, br)
    ensures CombineLeaves(h, al + ar) == CombineLeaves(h, bl + br)
  {
    CombineJoin(h, al, ar);
    CombineJoin(h, bl, br);
  }

  function SomeLeaves(n: nat): (leaves: seq<Hash>)
    ensures |leaves| == n
  {
    if n == 0 then [] else SomeLeaves(n - 1) + [Zeros(32)]
  }

  /** A root taken as the only leaf of another list. */
  lemma OneForMany(h: HashFn, n: nat) returns (many: seq<Hash>, one: seq<Hash>)
    requires n > 0
    ensures |many| == n && |one| == 1 && CombineLeaves(h, many) == CombineLeaves(h, one)
  {
    many := SomeLeaves(n);
    one := [CombineLeaves(h, many)];
  }

  /** The root does not tell the number of leaves: for every hash and any two counts there are lists of
      so many leaves with one root. */
  lemma {:induction false} AnyTwoCounts(h: HashFn, m: nat, n: nat) returns (a: seq<Hash>, b: seq<Hash>)
    requires m > 0 && n > 0
    ensures |a| == m && |b| == n && CombineLeaves(h, a) == CombineLeaves(h, b)
    decreases m + n
  {
    if m == 1 {
      b, a := OneForMany(h, n);
    } else if n == 1 {
      a, b := OneForMany(h, m);
    } else {
      var x, y := Mid(m), Mid(n);
      var al, bl := AnyTwoCounts(h, x, y);
      var ar, br := AnyTwoCounts(h, m - x, n - y);
      a, b := al + ar, bl + br;
      assert |a| == m && |b| == n;
      CombineBoth(h, al, ar, bl, br);
    }
  }

  // ----- binding

  /** Walks two trees of one shape in step and returns the first pair of node messages that
      differ below equal roots. */
  function FindCollision(h: HashFn, a: seq<Hash>, b: seq<Hash>): Option<(Bytes, Bytes)>
    requires |a| == |b| > 0
    decreases |a|
  {
    if |a| == 1 then None
    else
      var m := Mid(|a|);
      var x := NodeMessage(CombineLeaves(h, a[..m]), CombineLeaves(h, a[m..]));
      var y := NodeMessage(CombineLeaves(h, b[..m]), CombineLeaves(h, b[m..]));
      if x != y then Some((x, y))
      else
        var left := FindCollision(h, a[..m], b[..m]);
        if left.Some? then left else FindCollision(h, a[m..], b[m..])
  }

  lemma NodeMessageInjective(l: Hash, r: Hash, l': Hash, r': Hash)
    requires NodeMessage(l, r) == NodeMessage(l', r')
    ensures l == l' && r == r'
  {
    assert NodeMessage(l, r)[..32] == l && NodeMessage(l, r)[32..] == r;
    assert NodeMessage(l', r')[..32] == l' && NodeMessage(l', r')[32..] == r';
  }

  /** Equal roots over equally many leaves: the leaves are equal, or the finder returns a
      genuine collision; and it never reports one for equal leaves. */
  lemma {:induction false} RootBinds(h: HashFn, a: seq<Hash>, b: seq<Hash>)
    requires |a| == |b| > 0
    requires CombineLeaves(h, a) == CombineLeaves(h, b)
    ensures FindCollision(h, a, b).None? <==> a == b
    ensures FindCollision(h, a, b).Some? ==> Collides(h, FindCollision(h, a, b).value)
    decreases |a|
  {
    if |a| > 1 {
      var m := Mid(|a|);
      var al, ar, bl, br := a[..m], a[m..], b[..m], b[m..];
      CombineSplits(h, a);
      CombineSplits(h, b);
      assert a == al + ar && b == bl + br;
      var x := NodeMessage(CombineLeaves(h, al), CombineLeaves(h, ar));
      var y := NodeMessage(CombineLeaves(h, bl), CombineLeaves(h, br));
      if x == y {
        NodeMessageInjective(CombineLeaves(h, al), CombineLeaves(h, ar), CombineLeaves(h, bl), CombineLeaves(h, br));
        RootBinds(h, al, bl);
        RootBinds(h, ar, br);
      }
    }
  }
}
