/** mycelium-finetune/src/main.rs, build_pairs: pairing assistant lines with their user lines. */
module ParentPairs {

  datatype Line = Line(uuid: string, parent: string, role: string, text: string)

  datatype Pair = Pair(user: Line, assistant: Line)

  /** The last of the first n lines with this uuid, or -1: later lines overwrite the map entry. */
  function LastWith(lines: seq<Line>, n: nat, uuid: string): (r: int)
    requires n <= |lines|
    ensures -1 <= r < n
    ensures r >= 0 ==> lines[r].uuid == uuid
    ensures forall k :: r < k < n ==> lines[k].uuid != uuid
  {
    if n == 0 then -1 else if lines[n - 1].uuid == uuid then n - 1 else LastWith(lines, n - 1, uuid)
  }

  /** The last user line among the first n, or -1. */
  function LastUser(lines: seq<Line>, n: nat): (r: int)
    requires n <= |lines|
    ensures -1 <= r < n
    ensures r >= 0 ==> lines[r].role == "user"
    ensures forall k :: r < k < n ==> lines[k].role != "user"
  {
    if n == 0 then -1 else if lines[n - 1].role == "user" then n - 1 else LastUser(lines, n - 1)
  }

  function ParentIndex(lines: seq<Line>, i: nat): (r: int)
    requires i < |lines|
    ensures -1 <= r < |lines|
  {
    if lines[i].parent == "" then LastUser(lines, i) else LastWith(lines, |lines|, lines[i].parent)
  }

  function PairAt(lines: seq<Line>, i: nat): seq<Pair>
    requires i < |lines|
  {
    var p := ParentIndex(lines, i);
    if lines[i].role != "assistant" || p < 0 || lines[p].role != "user" then []
    else [Pair(lines[p], lines[i])]
  }

  function PairsUpTo(lines: seq<Line>, n: nat): seq<Pair>
    requires n <= |lines|
  {
    if n == 0 then [] else PairsUpTo(lines, n - 1) + PairAt(lines, n - 1)
  }

  function AllPairs(lines: seq<Line>): seq<Pair> {
    PairsUpTo(lines, |lines|)
  }

  /** The map from uuids to positions. */
  method IndexUuids(lines: seq<Line>) returns (index: map<string, nat>)
    ensures forall u :: u in index <==> LastWith(lines, |lines|, u) >= 0
    ensures forall u :: u in index ==> index[u] == LastWith(lines, |lines|, u)
  {
    index := map[];
    for i := 0 to |lines|
      invariant forall u :: u in index <==> LastWith(lines, i, u) >= 0
      invariant forall u :: u in index ==> index[u] == LastWith(lines, i, u)
    {
      index := index[lines[i].uuid := i];
    }
  }

  /** Searches backwards from line i for the nearest user line. */
  method LastUserBefore(lines: seq<Line>, i: nat) returns (r: int)
    requires i <= |lines|
    ensures r == LastUser(lines, i)
  {
    r := i - 1;
    while r >= 0 && lines[r].role != "user"
      invariant -1 <= r < i
      invariant LastUser(lines, i) == LastUser(lines, r + 1)
    {
      r := r - 1;
    }
  }

  // ----- what is paired, declaratively

  /** Line j is the user line that assistant line i answers: the last one carrying the uuid it
      names, or, if it names none, the nearest user line before it. */
  ghost predicate Answers(lines: seq<Line>, i: nat, j: nat)
    requires i < |lines| && j < |lines|
  {
    && lines[i].role == "assistant"
    && lines[j].role == "user"
    && (if lines[i].parent == "" then
          j < i && forall k :: j < k < i ==> lines[k].role != "user"
        else
          lines[j].uuid == lines[i].parent && forall k :: j < k < |lines| ==> lines[k].uuid != lines[i].parent)
  }

  /** The pair of line i and a user line that it answers. */
  ghost predicate Yields(lines: seq<Line>, i: nat, pair: Pair)
    requires i < |lines|
  {
    exists j: nat | j < |lines| :: Answers(lines, i, j) && pair == Pair(lines[j], lines[i])
  }

  lemma AnswersParentIndex(lines: seq<Line>, i: nat, j: nat)
    requires i < |lines| && j < |lines| && Answers(lines, i, j)
    ensures ParentIndex(lines, i) == j
  {
  }

  lemma PairAtIff(lines: seq<Line>, i: nat, pair: Pair)
    requires i < |lines|
    ensures |PairAt(lines, i)| <= 1
    ensures pair in PairAt(lines, i) <==> Yields(lines, i, pair)
  {
    var p := ParentIndex(lines, i);
    if pair in PairAt(lines, i) {
      assert Answers(lines, i, p);
    } else if Yields(lines, i, pair) {
      var j: nat :| j < |lines| && Answers(lines, i, j) && pair == Pair(lines[j], lines[i]);
      AnswersParentIndex(lines, i, j);
    }
  }

  /** One of the first n lines yields the pair. */
  ghost predicate Yielded(lines: seq<Line>, n: nat, pair: Pair)
    requires n <= |lines|
  {
    exists i: nat | i < n :: Yields(lines, i, pair)
  }

  // ----- parts put together

  function Joined(parts: seq<seq<Pair>>): seq<Pair> {
    if parts == [] then [] else Joined(parts[..|parts| - 1]) + parts[|parts| - 1]
  }

  lemma {:induction false} JoinedMember(parts: seq<seq<Pair>>, pair: Pair)
    ensures pair in Joined(parts) <==> exists i :: 0 <= i < |parts| && pair in parts[i]
  {
    if parts != [] {
      JoinedMember(parts[..|parts| - 1], pair);
    }
  }

  predicate Ascending(at: seq<nat>) {
    forall a, b :: 0 <= a < b < |at| ==> at[a] < at[b]
  }

  /** at are the places of the parts that are not empty, in order. */
  ghost predicate Filled(parts: seq<seq<Pair>>, at: seq<nat>) {
    Ascending(at) && forall i: nat :: i in at <==> i < |parts| && parts[i] != []
  }

  lemma FilledNext(parts: seq<seq<Pair>>, at: seq<nat>)
    requires parts != [] && Filled(parts[..|parts| - 1], at)
    ensures var n := |parts| - 1; Filled(parts, if parts[n] == [] then at else at + [n])
  {
    var n := |parts| - 1;
    assert forall a :: 0 <= a < |at| ==> at[a] in at;
    assert forall i: nat :: i in at + [n] <==> i in at || i == n;
  }

  /** pairs[a] is the only element of part at[a]. */
  predicate Singles(parts: seq<seq<Pair>>, at: seq<nat>, pairs: seq<Pair>) {
    |at| == |pairs| && forall a :: 0 <= a < |at| ==> at[a] < |parts| && parts[at[a]] == [pairs[a]]
  }

  lemma SinglesNext(parts: seq<seq<Pair>>, at: seq<nat>, pairs: seq<Pair>)
    requires parts != [] && |parts[|parts| - 1]| <= 1 && Singles(parts[..|parts| - 1], at, pairs)
    ensures var n := |parts| - 1; Singles(parts, if parts[n] == [] then at else at + [n], pairs + parts[n])
  {
  }

  /** When no part has two elements, what is put together is one element for each part that is not empty. */
  lemma {:induction false} JoinedAt(parts: seq<seq<Pair>>) returns (at: seq<nat>)
    requires forall i :: 0 <= i < |parts| ==> |parts[i]| <= 1
    ensures Filled(parts, at) && Singles(parts, at, Joined(parts))
  {
    if parts == [] {
      at := [];
    } else {
      var n := |parts| - 1;
      var front := JoinedAt(parts[..n]);
      FilledNext(parts, front);
      SinglesNext(parts, front, Joined(parts[..n]));
      at := if parts[n] == [] then front else front + [n];
    }
  }

  lemma {:induction false} JoinedSize(parts: seq<seq<Pair>>)
    requires forall i :: 0 <= i < |parts| ==> |parts[i]| <= 1
    ensures |Joined(parts)| <= |parts|
  {
    if parts != [] {
      JoinedSize(parts[..|parts| - 1]);
    }
  }

  function Parts(lines: seq<Line>, n: nat): (r: seq<seq<Pair>>)
    requires n <= |lines|
    ensures |r| == n && forall i :: 0 <= i < n ==> r[i] == PairAt(lines, i)
  {
    seq(n, i requires 0 <= i < n => PairAt(lines, i))
  }

  lemma {:induction false} PairsAreJoined(lines: seq<Line>, n: nat)
    requires n <= |lines|
    ensures PairsUpTo(lines, n) == Joined(Parts(lines, n))
  {
    if n > 0 {
      PairsAreJoined(lines, n - 1);
      assert Parts(lines, n)[..n - 1] == Parts(lines, n - 1);
    }
  }

  lemma AtMostOne(lines: seq<Line>)
    ensures forall i :: 0 <= i < |lines| ==> |Parts(lines, |lines|)[i]| <= 1
  {
  }

  /** build_pairs returns exactly the pairs of assistant lines and the user lines they answer, never
      more than there are lines. */
  lemma AllPairsIff(lines: seq<Line>, pair: Pair)
    ensures pair in AllPairs(lines) <==> Yielded(lines, |lines|, pair)
    ensures |AllPairs(lines)| <= |lines|
  {
    var parts := Parts(lines, |lines|);
    PairsAreJoined(lines, |lines|);
    AtMostOne(lines);
    JoinedMember(parts, pair);
    JoinedSize(parts);
    forall i: nat | i < |lines| ensures pair in PairAt(lines, i) <==> Yields(lines, i, pair) {
      PairAtIff(lines, i, pair);
    }
    assert forall i :: 0 <= i < |lines| ==> (pair in parts[i] <==> Yields(lines, i, pair));
  }

  /** Line i answers some user line. */
  ghost predicate AnswersSome(lines: seq<Line>, i: nat)
    requires i < |lines|
  {
    exists j: nat | j < |lines| :: Answers(lines, i, j)
  }

  lemma AnswersSomeIff(lines: seq<Line>, i: nat)
    requires i < |lines|
    ensures AnswersSome(lines, i) <==> PairAt(lines, i) != []
  {
    var p := ParentIndex(lines, i);
    if PairAt(lines, i) != [] {
      assert Answers(lines, i, p);
    }
    if AnswersSome(lines, i) {
      var j: nat :| j < |lines| && Answers(lines, i, j);
      AnswersParentIndex(lines, i, j);
    }
  }

  /** at are the answering lines, in order. */
  ghost predicate AnsweringLines(lines: seq<Line>, at: seq<nat>) {
    Ascending(at) && forall i: nat :: i < |lines| ==> (i in at <==> AnswersSome(lines, i))
  }

  ghost predicate EachYields(lines: seq<Line>, pairs: seq<Pair>, at: seq<nat>) {
    |at| == |pairs| && forall a :: 0 <= a < |at| ==> at[a] < |lines| && Yields(lines, at[a], pairs[a])
  }

  /** The pairs are those of the answering lines, one each, in order. */
  ghost predicate PairsAre(lines: seq<Line>, pairs: seq<Pair>) {
    exists at: seq<nat> :: AnsweringLines(lines, at) && EachYields(lines, pairs, at)
  }

  lemma AllPairsAre(lines: seq<Line>)
    ensures PairsAre(lines, AllPairs(lines))
  {
    PairsAreJoined(lines, |lines|);
    AtMostOne(lines);
    var at := JoinedAt(Parts(lines, |lines|));
    forall i: nat | i < |lines| ensures i in at <==> AnswersSome(lines, i) {
      AnswersSomeIff(lines, i);
    }
    forall a | 0 <= a < |at| ensures Yields(lines, at[a], AllPairs(lines)[a]) {
      PairAtIff(lines, at[a], AllPairs(lines)[a]);
    }
    assert AnsweringLines(lines, at) && EachYields(lines, AllPairs(lines), at);
  }

  method BuildPairs(lines: seq<Line>) returns (pairs: seq<Pair>)
    ensures pairs == AllPairs(lines) && PairsAre(lines, pairs)
  {
    var index := IndexUuids(lines);
    pairs := [];
    for i := 0 to |lines|
      invariant pairs == PairsUpTo(lines, i)
    {
      var line := lines[i];
      if line.role != "assistant" {
        continue;
      }
      var p: int;
      if line.parent == "" {
        p := LastUserBefore(lines, i);
        if p < 0 {
          continue;
        }
      } else {
        if line.parent !in index {
          continue;
        }
        p := index[line.parent];
      }
      if lines[p].role != "user" {
        continue;
      }
      pairs := pairs + [Pair(lines[p], line)];
    }
    AllPairsAre(lines);
  }

  ghost predicate UniqueUuids(lines: seq<Line>) {
    forall a, b :: 0 <= a < b < |lines| ==> lines[a].uuid != lines[b].uuid
  }

  /** With unique uuids a named parent is answered exactly when it is a user line. */
  lemma NamedParent(lines: seq<Line>, i: nat, j: nat)
    requires UniqueUuids(lines) && i < |lines| && j < |lines|
    requires lines[i].role == "assistant" && lines[i].parent != "" && lines[j].uuid == lines[i].parent
    ensures Answers(lines, i, j) <==> lines[j].role == "user"
    ensures PairAt(lines, i) == if lines[j].role == "user" then [Pair(lines[j], lines[i])] else []
  {
    var p := LastWith(lines, |lines|, lines[i].parent);
    assert p == j;
  }
}
