/** mycelium-finetune/src/main.rs: rebuilding a conversation tree and walking it with a stack. */
module Conversation {
  import opened Sequences

  type Id = string

  datatype Node = Node(parent: Id, role: string, text: string)

  datatype Message = Message(role: string, text: string)

  /** The parsed mapping, and the order in which the hash map happens to be iterated. */
  datatype Tree = Tree(nodes: map<Id, Node>, order: seq<Id>)

  /** The iteration order lists every id once. Nothing is asked of the parents. */
  ghost predicate Enumerated(t: Tree) {
    Distinct(t.order) && forall id :: id in t.order <==> id in t.nodes
  }

  /** Without a parent, or with one that is not in the file. */
  predicate IsRoot(nodes: map<Id, Node>, id: Id)
    requires id in nodes
  {
    nodes[id].parent == "" || nodes[id].parent !in nodes
  }

  predicate IsChildOf(nodes: map<Id, Node>, id: Id, parent: Id) {
    id in nodes && !IsRoot(nodes, id) && nodes[id].parent == parent
  }

  /** The last root in iteration order, or the empty id. */
  function RootAmong(nodes: map<Id, Node>, order: seq<Id>): Id
    requires forall id :: id in order ==> id in nodes
  {
    if order == [] then ""
    else
      var id := order[|order| - 1];
      if IsRoot(nodes, id) then id else RootAmong(nodes, order[..|order| - 1])
  }

  function KidsAmong(nodes: map<Id, Node>, order: seq<Id>, parent: Id): seq<Id> {
    if order == [] then []
    else
      var id := order[|order| - 1];
      var front := KidsAmong(nodes, order[..|order| - 1], parent);
      if IsChildOf(nodes, id, parent) then front + [id] else front
  }

  function Kids(t: Tree, parent: Id): seq<Id> {
    KidsAmong(t.nodes, t.order, parent)
  }

  function RootId(t: Tree): Id
    requires Enumerated(t)
  {
    RootAmong(t.nodes, t.order)
  }

  // ----- the children map

  function Lookup(children: map<Id, seq<Id>>, id: Id): seq<Id> {
    if id in children then children[id] else []
  }

  method BuildChildren(t: Tree) returns (rootId: Id, children: map<Id, seq<Id>>)
    requires Enumerated(t)
    ensures rootId == RootId(t)
    ensures forall p :: Lookup(children, p) == Kids(t, p)
  {
    rootId, children := "", map[];
    for i := 0 to |t.order|
      invariant forall id :: id in t.order[..i] ==> id in t.nodes
      invariant rootId == RootAmong(t.nodes, t.order[..i])
      invariant forall p :: Lookup(children, p) == KidsAmong(t.nodes, t.order[..i], p)
    {
      var id := t.order[i];
      assert t.order[..i + 1][..i] == t.order[..i] && t.order[..i + 1] == t.order[..i] + [id];
      var parent := t.nodes[id].parent;
      if parent == "" || parent !in t.nodes {
        rootId := id;
      } else {
        children := children[parent := Lookup(children, parent) + [id]];
      }
    }
    assert t.order[..|t.order|] == t.order;
  }

  // ----- recursive preorder, on any mapping whatever

  /** Preorder from id over the ids still available; taking an id makes it unavailable below, so
      the recursion ends on cyclic mappings too. */
  function Preorder(t: Tree, id: Id, avail: set<Id>): seq<Id>
    decreases avail, 0, 0
  {
    if id !in avail then [] else [id] + PreorderAll(t, Kids(t, id), avail - {id})
  }

  function PreorderAll(t: Tree, ids: seq<Id>, avail: set<Id>): seq<Id>
    decreases avail, 1, |ids|
  {
    if ids == [] then [] else Preorder(t, ids[0], avail) + PreorderAll(t, ids[1..], avail)
  }

  predicate Kept(n: Node) {
    (n.role == "user" || n.role == "assistant") && n.text != ""
  }

  /** The non-empty user and assistant messages among the visited ids. */
  function MessagesOf(nodes: map<Id, Node>, ids: seq<Id>): seq<Message> {
    if ids == [] then []
    else
      var rest := MessagesOf(nodes, ids[1..]);
      if ids[0] in nodes && Kept(nodes[ids[0]]) then [Message(nodes[ids[0]].role, nodes[ids[0]].text)] + rest else rest
  }

  predicate Ascending(at: seq<nat>) {
    forall a, b :: 0 <= a < b < |at| ==> at[a] < at[b]
  }

  /** The i-th id is that of a user or an assistant who says something. */
  predicate SpeaksAt(nodes: map<Id, Node>, ids: seq<Id>, i: nat) {
    && i < |ids| && ids[i] in nodes
    && (nodes[ids[i]].role == "user" || nodes[ids[i]].role == "assistant") && |nodes[ids[i]].text| > 0
  }

  predicate SaysAt(nodes: map<Id, Node>, ids: seq<Id>, i: nat, m: Message) {
    i < |ids| && ids[i] in nodes && m.role == nodes[ids[i]].role && m.text == nodes[ids[i]].text
  }

  /** ms are said at these positions of the list, and nothing is said at any other. */
  ghost predicate Collected(nodes: map<Id, Node>, ids: seq<Id>, ms: seq<Message>, at: seq<nat>) {
    && |at| == |ms| && Ascending(at)
    && (forall i: nat :: i in at <==> SpeaksAt(nodes, ids, i))
    && forall k :: 0 <= k < |at| ==> SaysAt(nodes, ids, at[k], ms[k])
  }

  /** ms are exactly the non-empty user and assistant messages of the ids, in their order. */
  ghost predicate CollectedFrom(nodes: map<Id, Node>, ids: seq<Id>, ms: seq<Message>) {
    exists at: seq<nat> :: Collected(nodes, ids, ms, at)
  }

  /** All positions of a list moved up by one. */
  function Shifted(at: seq<nat>): (r: seq<nat>)
    ensures |r| == |at| && forall k :: 0 <= k < |at| ==> r[k] == at[k] + 1
  {
    seq(|at|, k requires 0 <= k < |at| => at[k] + 1)
  }

  lemma ShiftedMember(at: seq<nat>, i: nat)
    ensures i in Shifted(at) <==> i > 0 && i - 1 in at
  {
    if i > 0 && i - 1 in at {
      var k :| 0 <= k < |at| && at[k] == i - 1;
      assert Shifted(at)[k] == i;
    }
    if i in Shifted(at) {
      var k :| 0 <= k < |at| && Shifted(at)[k] == i;
      assert at[k] == i - 1;
    }
  }

  /** An id in front that says nothing. */
  lemma CollectedAfterSilence(nodes: map<Id, Node>, ids: seq<Id>, ms: seq<Message>, at: seq<nat>)
    requires ids != [] && !SpeaksAt(nodes, ids, 0) && Collected(nodes, ids[1..], ms, at)
    ensures Collected(nodes, ids, ms, Shifted(at))
  {
    forall i: nat ensures i in Shifted(at) <==> SpeaksAt(nodes, ids, i) {
      ShiftedMember(at, i);
      assert i > 0 ==> (SpeaksAt(nodes, ids, i) <==> SpeaksAt(nodes, ids[1..], i - 1));
    }
    forall k | 0 <= k < |at| ensures SaysAt(nodes, ids, at[k] + 1, ms[k]) {
      assert SaysAt(nodes, ids[1..], at[k], ms[k]);
    }
  }

  /** An id in front that says something. */
  lemma CollectedAfterSpeech(nodes: map<Id, Node>, ids: seq<Id>, m: Message, ms: seq<Message>, at: seq<nat>)
    requires SpeaksAt(nodes, ids, 0) && SaysAt(nodes, ids, 0, m) && Collected(nodes, ids[1..], ms, at)
    ensures Collected(nodes, ids, [m] + ms, [0] + Shifted(at))
  {
    var at' := [0] + Shifted(at);
    forall i: nat ensures i in at' <==> SpeaksAt(nodes, ids, i) {
      ShiftedMember(at, i);
      assert i > 0 ==> (SpeaksAt(nodes, ids, i) <==> SpeaksAt(nodes, ids[1..], i - 1));
    }
    forall k | 0 <= k < |at'| ensures SaysAt(nodes, ids, at'[k], ([m] + ms)[k]) {
      assert k > 0 ==> SaysAt(nodes, ids[1..], at[k - 1], ms[k - 1]);
    }
  }

  lemma {:induction false} MessagesAreCollected(nodes: map<Id, Node>, ids: seq<Id>) returns (at: seq<nat>)
    ensures Collected(nodes, ids, MessagesOf(nodes, ids), at)
  {
    if ids == [] {
      at := [];
    } else {
      var rest := MessagesAreCollected(nodes, ids[1..]);
      var ms := MessagesOf(nodes, ids[1..]);
      if ids[0] in nodes && Kept(nodes[ids[0]]) {
        CollectedAfterSpeech(nodes, ids, Message(nodes[ids[0]].role, nodes[ids[0]].text), ms, rest);
        at := [0] + Shifted(rest);
      } else {
        CollectedAfterSilence(nodes, ids, ms, rest);
        at := Shifted(rest);
      }
    }
  }

  // ----- facts about kids

  lemma {:induction false} KidsAmongAre(nodes: map<Id, Node>, order: seq<Id>, parent: Id, id: Id)
    ensures id in KidsAmong(nodes, order, parent) <==> id in order && IsChildOf(nodes, id, parent)
  {
    if order != [] {
      KidsAmongAre(nodes, order[..|order| - 1], parent, id);
      assert order == order[..|order| - 1] + [order[|order| - 1]];
    }
  }

  lemma {:induction false} KidsAmongDistinct(nodes: map<Id, Node>, order: seq<Id>, parent: Id)
    requires Distinct(order)
    ensures Distinct(KidsAmong(nodes, order, parent))
  {
    if order != [] {
      var front, last := order[..|order| - 1], order[|order| - 1];
      KidsAmongDistinct(nodes, front, parent);
      KidsAmongAre(nodes, front, parent, last);
      assert last !in front;
    }
  }

  lemma KidsAre(t: Tree, parent: Id)
    requires Enumerated(t)
    ensures Distinct(Kids(t, parent))
    ensures forall id :: id in Kids(t, parent) <==> IsChildOf(t.nodes, id, parent)
  {
    KidsAmongDistinct(t.nodes, t.order, parent);
    forall id ensures id in Kids(t, parent) <==> IsChildOf(t.nodes, id, parent) {
      KidsAmongAre(t.nodes, t.order, parent, id);
    }
  }

  lemma {:induction false} KidsAmongOrdered(nodes: map<Id, Node>, order: seq<Id>, parent: Id, a: nat, b: nat)
    returns (i: nat, j: nat)
    requires a < b < |KidsAmong(nodes, order, parent)|
    ensures i < j < |order|
    ensures order[i] == KidsAmong(nodes, order, parent)[a] && order[j] == KidsAmong(nodes, order, parent)[b]
  {
    var n := |order| - 1;
    var front := KidsAmong(nodes, order[..n], parent);
    if b < |front| {
      i, j := KidsAmongOrdered(nodes, order[..n], parent, a, b);
    } else {
      KidsAmongAre(nodes, order[..n], parent, front[a]);
      i :| 0 <= i < n && order[..n][i] == front[a];
      j := n;
    }
  }

  /** The kids of an id of the file are the nodes that name it as parent, in iteration order; nothing else has
      kids. */
  lemma KidsInOrder(t: Tree, parent: Id, id: Id, a: nat, b: nat)
    requires Enumerated(t)
    ensures id in Kids(t, parent)
            <==> id in t.nodes && parent in t.nodes && parent != "" && t.nodes[id].parent == parent
    ensures a < b < |Kids(t, parent)|
            ==> exists i, j :: 0 <= i < j < |t.order| && t.order[i] == Kids(t, parent)[a]
                               && t.order[j] == Kids(t, parent)[b]
  {
    KidsAre(t, parent);
    if a < b < |Kids(t, parent)| {
      var i, j := KidsAmongOrdered(t.nodes, t.order, parent, a, b);
    }
  }

  lemma {:induction false} RootAmongIs(nodes: map<Id, Node>, order: seq<Id>)
    requires forall id :: id in order ==> id in nodes
    ensures var r := RootAmong(nodes, order);
            (r in nodes && IsRoot(nodes, r)) || (r == "" && forall id :: id in order ==> !IsRoot(nodes, id))
  {
    if order != [] {
      var front, last := order[..|order| - 1], order[|order| - 1];
      RootAmongIs(nodes, front);
      assert order == front + [last];
    }
  }

  lemma {:induction false} RootAmongLast(nodes: map<Id, Node>, order: seq<Id>, i: nat)
    requires (forall id :: id in order ==> id in nodes) && i < |order| && IsRoot(nodes, order[i])
    ensures exists j :: i <= j < |order| && order[j] == RootAmong(nodes, order)
  {
    var n := |order| - 1;
    if IsRoot(nodes, order[n]) {
      assert order[n] == RootAmong(nodes, order);
    } else {
      RootAmongLast(nodes, order[..n], i);
      var j :| i <= j < n && order[..n][j] == RootAmong(nodes, order[..n]);
      assert order[j] == RootAmong(nodes, order);
    }
  }

  /** Of several nodes without a parent in the file the last one iterated is chosen. */
  lemma LastRootChosen(t: Tree, i: nat)
    requires Enumerated(t) && i < |t.order|
    requires t.nodes[t.order[i]].parent == "" || t.nodes[t.order[i]].parent !in t.nodes
    ensures exists j :: i <= j < |t.order| && t.order[j] == RootId(t)
    ensures var r := RootId(t); r in t.nodes && (t.nodes[r].parent == "" || t.nodes[r].parent !in t.nodes)
  {
    RootAmongLast(t.nodes, t.order, i);
    RootAmongIs(t.nodes, t.order);
    assert t.order[i] in t.order;
  }

  /** The chosen id is a root, or there is none and it is the empty id, which has no kids. */
  lemma RootIs(t: Tree)
    requires Enumerated(t)
    ensures var r := RootId(t);
            || (r in t.nodes && IsRoot(t.nodes, r))
            || (Kids(t, r) == [] && r == "" && forall id :: id in t.nodes ==> !IsRoot(t.nodes, id))
  {
    RootAmongIs(t.nodes, t.order);
    KidsAre(t, "");
    if Kids(t, "") != [] {
      assert IsChildOf(t.nodes, Kids(t, "")[0], "");
    }
  }

  // ----- facts about preorder

  lemma {:induction false} PreorderMembers(t: Tree, id: Id, avail: set<Id>, y: Id)
    requires Enumerated(t) && y in Preorder(t, id, avail)
    ensures y in avail
    ensures y == id || exists p :: p in avail && IsChildOf(t.nodes, y, p)
    decreases avail, 0, 0
  {
    if y != id {
      PreorderAllMembers(t, Kids(t, id), avail - {id}, y);
      KidsAre(t, id);
    }
  }

  lemma {:induction false} PreorderAllMembers(t: Tree, ids: seq<Id>, avail: set<Id>, y: Id)
    requires Enumerated(t) && y in PreorderAll(t, ids, avail)
    ensures y in avail
    ensures y in ids || exists p :: p in avail && IsChildOf(t.nodes, y, p)
    decreases avail, 1, |ids|
  {
    if y in Preorder(t, ids[0], avail) {
      PreorderMembers(t, ids[0], avail, y);
    } else {
      PreorderAllMembers(t, ids[1..], avail, y);
    }
  }

  lemma {:induction false} DropUnvisited(t: Tree, id: Id, avail: set<Id>, cur: Id)
    requires cur !in Preorder(t, id, avail)
    ensures Preorder(t, id, avail - {cur}) == Preorder(t, id, avail)
    decreases avail, 0, 0
  {
    if id in avail {
      assert Preorder(t, id, avail)[0] == id;
      DropUnvisitedAll(t, Kids(t, id), avail - {id}, cur);
      assert avail - {cur} - {id} == avail - {id} - {cur};
    }
  }

  lemma {:induction false} DropUnvisitedAll(t: Tree, ids: seq<Id>, avail: set<Id>, cur: Id)
    requires cur !in PreorderAll(t, ids, avail)
    ensures PreorderAll(t, ids, avail - {cur}) == PreorderAll(t, ids, avail)
    decreases avail, 1, |ids|
  {
    if ids != [] {
      DropUnvisited(t, ids[0], avail, cur);
      DropUnvisitedAll(t, ids[1..], avail, cur);
    }
  }

  lemma {:induction false} PreorderAllConcat(t: Tree, a: seq<Id>, b: seq<Id>, avail: set<Id>)
    ensures PreorderAll(t, a + b, avail) == PreorderAll(t, a, avail) + PreorderAll(t, b, avail)
  {
    if a == [] {
      assert a + b == b;
    } else {
      assert (a + b)[1..] == a[1..] + b;
      PreorderAllConcat(t, a[1..], b, avail);
    }
  }

  // ----- the invariant of the walk

  predicate HasParentIn(t: Tree, id: Id, visited: set<Id>) {
    id in t.nodes && !IsRoot(t.nodes, id) && t.nodes[id].parent in visited
  }

  /** The walk starts at a root, or at the empty id and then sees nothing else. */
  ghost predicate RootClause(t: Tree, root: Id, todo: seq<Id>, visited: set<Id>) {
    || (root in t.nodes && IsRoot(t.nodes, root))
    || (Kids(t, root) == [] && (forall id :: id in todo ==> id == root) && visited <= {root})
  }

  /** todo is the stack, top first. */
  ghost predicate WalkInv(t: Tree, root: Id, todo: seq<Id>, visited: set<Id>) {
    && Enumerated(t)
    && Distinct(todo)
    && (forall id :: id in todo ==> id !in visited)
    && (forall id :: id in todo ==> id == root || HasParentIn(t, id, visited))
    && (forall id :: id in visited ==> id == root || HasParentIn(t, id, visited))
    && RootClause(t, root, todo, visited)
  }

  lemma RestMember(todo: seq<Id>, id: Id)
    requires todo != [] && Distinct(todo) && id in todo[1..]
    ensures id in todo && id != todo[0]
  {
    var k :| 0 <= k < |todo[1..]| && todo[1..][k] == id;
    assert todo[k + 1] == id;
  }

  lemma RootClauseStep(t: Tree, root: Id, todo: seq<Id>, visited: set<Id>)
    requires todo != [] && Distinct(todo) && RootClause(t, root, todo, visited)
    ensures RootClause(t, root, Kids(t, todo[0]) + todo[1..], visited + {todo[0]})
  {
    if !(root in t.nodes && IsRoot(t.nodes, root)) {
      assert todo[0] in todo && Kids(t, todo[0]) + todo[1..] == todo[1..];
      forall id | id in todo[1..] ensures id == root {
        RestMember(todo, id);
      }
    }
  }

  /** A kid of the popped id has been neither visited nor pushed. */
  lemma KidIsNew(t: Tree, root: Id, todo: seq<Id>, visited: set<Id>, kid: Id)
    requires todo != [] && WalkInv(t, root, todo, visited) && kid in Kids(t, todo[0])
    ensures kid != root && kid !in visited && kid !in todo
    ensures HasParentIn(t, kid, visited + {todo[0]})
  {
    KidsAre(t, todo[0]);
    assert todo[0] in todo;
  }

  lemma DistinctPush(kids: seq<Id>, todo: seq<Id>)
    requires todo != [] && Distinct(kids) && Distinct(todo)
    requires forall id :: id in kids ==> id !in todo
    ensures Distinct(kids + todo[1..])
  {
    var all := kids + todo[1..];
    forall a, b | 0 <= a < b < |all| ensures all[a] != all[b] {
      if a < |kids| <= b {
        assert all[a] in kids && all[b] == todo[b - |kids| + 1];
      } else if a >= |kids| {
        assert all[a] == todo[a - |kids| + 1] && all[b] == todo[b - |kids| + 1];
      }
    }
  }

  lemma NewTodo(t: Tree, root: Id, todo: seq<Id>, visited: set<Id>, id: Id)
    requires todo != [] && WalkInv(t, root, todo, visited) && id in Kids(t, todo[0]) + todo[1..]
    ensures id !in visited + {todo[0]}
    ensures id == root || HasParentIn(t, id, visited + {todo[0]})
  {
    assert todo[0] in todo;
    if id in Kids(t, todo[0]) {
      KidIsNew(t, root, todo, visited, id);
    } else {
      RestMember(todo, id);
    }
  }

  lemma NewTodoDistinct(t: Tree, root: Id, todo: seq<Id>, visited: set<Id>)
    requires todo != [] && WalkInv(t, root, todo, visited)
    ensures Distinct(Kids(t, todo[0]) + todo[1..])
  {
    KidsAre(t, todo[0]);
    forall kid | kid in Kids(t, todo[0]) ensures kid !in todo {
      KidIsNew(t, root, todo, visited, kid);
    }
    DistinctPush(Kids(t, todo[0]), todo);
  }

  lemma WalkStep(t: Tree, root: Id, todo: seq<Id>, visited: set<Id>)
    requires todo != [] && WalkInv(t, root, todo, visited)
    ensures WalkInv(t, root, Kids(t, todo[0]) + todo[1..], visited + {todo[0]})
  {
    var cur, todo', visited' := todo[0], Kids(t, todo[0]) + todo[1..], visited + {todo[0]};
    assert cur in todo;
    NewTodoDistinct(t, root, todo, visited);
    forall id | id in todo' ensures id !in visited' && (id == root || HasParentIn(t, id, visited')) {
      NewTodo(t, root, todo, visited, id);
    }
    RootClauseStep(t, root, todo, visited);
  }

  lemma CurNotBelowRest(t: Tree, root: Id, todo: seq<Id>, visited: set<Id>)
    requires todo != [] && WalkInv(t, root, todo, visited)
    ensures todo[0] !in PreorderAll(t, todo[1..], t.nodes.Keys - visited)
  {
    var cur, rest, avail := todo[0], todo[1..], t.nodes.Keys - visited;
    assert cur in todo && cur !in rest;
    if rest != [] {
      assert rest[0] == todo[1] && rest[0] != cur && rest[0] in todo;
      if cur in PreorderAll(t, rest, avail) {
        PreorderAllMembers(t, rest, avail, cur);
      }
    }
  }

  /** Only ids of the mapping have kids. */
  lemma NoKidsOutside(t: Tree, id: Id)
    requires Enumerated(t) && id !in t.nodes
    ensures Kids(t, id) == []
  {
    KidsAre(t, id);
    assert Kids(t, id) != [] ==> IsChildOf(t.nodes, Kids(t, id)[0], id);
  }

  /** One pop, seen from the preorder: the popped id, then what its kids and the rest still give. */
  lemma PreorderStep(t: Tree, root: Id, todo: seq<Id>, visited: set<Id>)
    requires todo != [] && WalkInv(t, root, todo, visited)
    ensures var cur, avail := todo[0], t.nodes.Keys - visited;
            PreorderAll(t, todo, avail)
            == (if cur in t.nodes then [cur] else [])
               + PreorderAll(t, Kids(t, cur) + todo[1..], t.nodes.Keys - (visited + {cur}))
  {
    var cur, rest, avail := todo[0], todo[1..], t.nodes.Keys - visited;
    assert todo == [cur] + rest;
    assert t.nodes.Keys - (visited + {cur}) == avail - {cur};
    KidsAre(t, cur);
    CurNotBelowRest(t, root, todo, visited);
    DropUnvisitedAll(t, rest, avail, cur);
    PreorderAllConcat(t, Kids(t, cur), rest, avail - {cur});
    assert cur in avail <==> cur in t.nodes;
    if cur !in t.nodes {
      NoKidsOutside(t, cur);
    }
  }

  // ----- the walk with an explicit stack

  function TopFirst(stack: seq<Id>): (r: seq<Id>)
    ensures |r| == |stack|
  {
    if stack == [] then [] else [stack[|stack| - 1]] + TopFirst(stack[..|stack| - 1])
  }

  lemma TopFirstPush(stack: seq<Id>, id: Id)
    ensures TopFirst(stack + [id]) == [id] + TopFirst(stack)
  {
    assert (stack + [id])[..|stack|] == stack;
  }

  lemma {:induction false} MessagesOfConcat(nodes: map<Id, Node>, a: seq<Id>, b: seq<Id>)
    ensures MessagesOf(nodes, a + b) == MessagesOf(nodes, a) + MessagesOf(nodes, b)
  {
    if a == [] {
      assert a + b == b;
    } else {
      assert (a + b)[1..] == a[1..] + b;
      MessagesOfConcat(nodes, a[1..], b);
    }
  }

  /** Pushing in reverse keeps the kids in order below the top. */
  method PushReversed(stack: seq<Id>, kids: seq<Id>) returns (r: seq<Id>)
    ensures TopFirst(r) == kids + TopFirst(stack)
  {
    r := stack;
    var i := |kids|;
    while i > 0
      invariant 0 <= i <= |kids|
      invariant TopFirst(r) == kids[i..] + TopFirst(stack)
    {
      i := i - 1;
      TopFirstPush(r, kids[i]);
      r := r + [kids[i]];
    }
  }

  lemma StartInv(t: Tree)
    requires Enumerated(t)
    ensures WalkInv(t, RootId(t), [RootId(t)], {})
  {
    RootIs(t);
  }

  /** The messages a walk with this stack still has to collect. */
  ghost function ToCome(t: Tree, todo: seq<Id>, visited: set<Id>): seq<Message> {
    MessagesOf(t.nodes, PreorderAll(t, todo, t.nodes.Keys - visited))
  }

  function MessageAt(nodes: map<Id, Node>, id: Id): seq<Message> {
    if id in nodes && Kept(nodes[id]) then [Message(nodes[id].role, nodes[id].text)] else []
  }

  /** What one pop contributes, and what the walk still has to contribute. */
  lemma VisitStep(t: Tree, root: Id, todo: seq<Id>, visited: set<Id>)
    requires todo != [] && WalkInv(t, root, todo, visited)
    ensures todo[0] !in visited && (todo[0] in t.nodes || todo[0] == root)
    ensures ToCome(t, todo, visited)
         == MessageAt(t.nodes, todo[0]) + ToCome(t, Kids(t, todo[0]) + todo[1..], visited + {todo[0]})
  {
    var cur := todo[0];
    assert cur in todo;
    PreorderStep(t, root, todo, visited);
    var one := if cur in t.nodes then [cur] else [];
    MessagesOfConcat(t.nodes, one, PreorderAll(t, Kids(t, cur) + todo[1..], t.nodes.Keys - (visited + {cur})));
    assert cur in t.nodes ==> one[1..] == [];
  }

  /** One turn of the loop: pop, take the message if there is one, push the kids. */
  method PopAndPush(t: Tree, stack: seq<Id>, children: map<Id, seq<Id>>)
    returns (cur: Id, stack': seq<Id>, found: seq<Message>)
    requires stack != [] && forall p :: Lookup(children, p) == Kids(t, p)
    ensures cur == TopFirst(stack)[0]
    ensures found == MessageAt(t.nodes, cur)
    ensures TopFirst(stack') == Kids(t, cur) + TopFirst(stack)[1..]
  {
    cur := stack[|stack| - 1];
    stack' := stack[..|stack| - 1];
    found := [];
    if cur in t.nodes {
      var node := t.nodes[cur];
      if (node.role == "user" || node.role == "assistant") && node.text != "" {
        found := [Message(node.role, node.text)];
      }
    }
    assert Lookup(children, cur) == Kids(t, cur);
    if cur in children {
      stack' := PushReversed(stack', children[cur]);
    }
  }

  lemma StartToCome(t: Tree)
    requires Enumerated(t)
    ensures ToCome(t, [RootId(t)], {}) == MessagesOf(t.nodes, Preorder(t, RootId(t), t.nodes.Keys))
  {
    var root, keys := RootId(t), t.nodes.Keys;
    assert keys - {} == keys;
    assert PreorderAll(t, [root], keys) == Preorder(t, root, keys);
  }

  /** The walk ends on every mapping, cyclic ones included, and visits in preorder. */
  method Walk(t: Tree, rootId: Id, children: map<Id, seq<Id>>) returns (ordered: seq<Message>)
    requires Enumerated(t) && rootId == RootId(t)
    requires forall p :: Lookup(children, p) == Kids(t, p)
    ensures ordered == MessagesOf(t.nodes, Preorder(t, rootId, t.nodes.Keys))
    ensures CollectedFrom(t.nodes, Preorder(t, rootId, t.nodes.Keys), ordered)
  {
    ordered := [];
    var stack := [rootId];
    ghost var visited: set<Id> := {};
    ghost var todo := [rootId];
    StartInv(t);
    while stack != []
      invariant todo == TopFirst(stack) && WalkInv(t, rootId, todo, visited)
      invariant ordered + ToCome(t, todo, visited) == ToCome(t, [rootId], {})
      decreases t.nodes.Keys + {rootId} - visited
    {
      WalkStep(t, rootId, todo, visited);
      VisitStep(t, rootId, todo, visited);
      var found, cur;
      cur, stack, found := PopAndPush(t, stack, children);
      ordered := ordered + found;
      todo, visited := Kids(t, cur) + todo[1..], visited + {cur};
    }
    StartToCome(t);
    ghost var at := MessagesAreCollected(t.nodes, Preorder(t, rootId, t.nodes.Keys));
  }

  // ----- which ids are visited, and how often

  /** Following n parents from id ends at the chosen root. */
  predicate Leads(t: Tree, id: Id, root: Id, n: nat)
    decreases n
  {
    if n == 0 then id == root
    else id in t.nodes && !IsRoot(t.nodes, id) && Leads(t, t.nodes[id].parent, root, n - 1)
  }

  /** What is still to come repeats nothing, starts with everything on the stack, and is closed
      under kids. */
  lemma {:induction false} Remaining(t: Tree, root: Id, todo: seq<Id>, visited: set<Id>, id: Id, kid: Id)
    requires WalkInv(t, root, todo, visited)
    ensures var p := PreorderAll(t, todo, t.nodes.Keys - visited);
            && Distinct(p)
            && (id in todo && id in t.nodes ==> id in p)
            && (id in p && kid in Kids(t, id) ==> kid in p)
    decreases t.nodes.Keys + {root} - visited, |todo|
  {
    if todo != [] {
      var cur := todo[0];
      var todo', visited' := Kids(t, cur) + todo[1..], visited + {cur};
      var p := PreorderAll(t, todo', t.nodes.Keys - visited');
      assert cur in todo;
      KidsAre(t, cur);
      WalkStep(t, root, todo, visited);
      PreorderStep(t, root, todo, visited);
      Remaining(t, root, todo', visited', id, kid);
      Remaining(t, root, todo', visited', kid, kid);
      if cur in p {
        PreorderAllMembers(t, todo', t.nodes.Keys - visited', cur);
      }
      assert todo == [cur] + todo[1..];
    }
  }

  lemma {:induction false} LeadsThrough(t: Tree, id: Id, mid: Id, root: Id, n: nat)
    requires Leads(t, id, mid, n) && IsChildOf(t.nodes, mid, root)
    ensures Leads(t, id, root, n + 1)
    decreases n
  {
    if n > 0 {
      LeadsThrough(t, t.nodes[id].parent, mid, root, n - 1);
    }
  }

  lemma {:induction false} VisitedLeads(t: Tree, id: Id, avail: set<Id>, y: Id) returns (n: nat)
    requires Enumerated(t) && y in Preorder(t, id, avail)
    ensures Leads(t, y, id, n)
    decreases avail, 0, 0
  {
    if y == id {
      n := 0;
    } else {
      var kid;
      kid, n := AllVisitedLead(t, Kids(t, id), avail - {id}, y);
      KidsAre(t, id);
      LeadsThrough(t, y, kid, id, n);
      n := n + 1;
    }
  }

  lemma {:induction false} AllVisitedLead(t: Tree, ids: seq<Id>, avail: set<Id>, y: Id) returns (id: Id, n: nat)
    requires Enumerated(t) && y in PreorderAll(t, ids, avail)
    ensures id in ids && Leads(t, y, id, n)
    decreases avail, 1, |ids|
  {
    if y in Preorder(t, ids[0], avail) {
      id := ids[0];
      n := VisitedLeads(t, id, avail, y);
    } else {
      id, n := AllVisitedLead(t, ids[1..], avail, y);
    }
  }

  lemma {:induction false} LeadingAreVisited(t: Tree, y: Id, n: nat)
    requires Enumerated(t) && y in t.nodes && Leads(t, y, RootId(t), n)
    ensures y in Preorder(t, RootId(t), t.nodes.Keys)
    decreases n
  {
    var root := RootId(t);
    StartInv(t);
    assert t.nodes.Keys - {} == t.nodes.Keys;
    assert PreorderAll(t, [root], t.nodes.Keys) == Preorder(t, root, t.nodes.Keys);
    if n == 0 {
      Remaining(t, root, [root], {}, root, root);
    } else {
      var parent := t.nodes[y].parent;
      LeadingAreVisited(t, parent, n - 1);
      KidsAre(t, parent);
      Remaining(t, root, [root], {}, parent, y);
    }
  }

  ghost predicate ReachesRoot(t: Tree, y: Id)
    requires Enumerated(t)
  {
    y in t.nodes && exists n: nat :: Leads(t, y, RootId(t), n)
  }

  /** The walk visits exactly the ids of the mapping whose chain of parents ends at the chosen
      root, each of them once: other roots' trees and cycles are left out. */
  lemma WalkVisits(t: Tree, y: Id)
    requires Enumerated(t)
    ensures Distinct(Preorder(t, RootId(t), t.nodes.Keys))
    ensures y in Preorder(t, RootId(t), t.nodes.Keys) <==> ReachesRoot(t, y)
  {
    var root, keys := RootId(t), t.nodes.Keys;
    StartInv(t);
    assert keys - {} == keys;
    assert PreorderAll(t, [root], keys) == Preorder(t, root, keys);
    Remaining(t, root, [root], {}, root, root);
    if y in Preorder(t, root, keys) {
      PreorderMembers(t, root, keys, y);
      var n := VisitedLeads(t, root, keys, y);
      assert y in t.nodes && ReachesRoot(t, y);
    } else if ReachesRoot(t, y) {
      var n: nat :| Leads(t, y, root, n);
      LeadingAreVisited(t, y, n);
    }
  }

  // ----- adjacent pairs

  datatype Pair = Pair(instruction: string, output: string)

  predicate IsTurn(ms: seq<Message>, i: nat)
    requires i + 1 < |ms|
  {
    ms[i].role == "user" && ms[i + 1].role == "assistant"
  }

  /** What the scan still yields from position i on. */
  function PairsFrom(ms: seq<Message>, i: nat): seq<Pair>
    decreases |ms| - i
  {
    if i + 1 >= |ms| then []
    else if IsTurn(ms, i) then [Pair(ms[i].text, ms[i + 1].text)] + PairsFrom(ms, i + 2)
    else PairsFrom(ms, i + 1)
  }

  /** Every user message directly followed by an assistant message, in order, up to position n. */
  function AllTurns(ms: seq<Message>, n: nat): seq<Pair> {
    if n == 0 then []
    else if n < |ms| && IsTurn(ms, n - 1) then AllTurns(ms, n - 1) + [Pair(ms[n - 1].text, ms[n].text)]
    else AllTurns(ms, n - 1)
  }

  /** Skipping two positions after a pair loses nothing: an assistant message starts no turn. */
  lemma {:induction false} PairsFromAll(ms: seq<Message>, i: nat)
    requires i <= |ms|
    ensures AllTurns(ms, |ms|) == AllTurns(ms, i) + PairsFrom(ms, i)
    decreases |ms| - i
  {
    if i + 1 < |ms| {
      if IsTurn(ms, i) {
        PairsFromAll(ms, i + 2);
        assert AllTurns(ms, i + 2) == AllTurns(ms, i + 1);
      } else {
        PairsFromAll(ms, i + 1);
      }
    } else if i + 1 == |ms| {
      assert AllTurns(ms, |ms|) == AllTurns(ms, i);
    }
  }

  method ScanPairs(ms: seq<Message>) returns (pairs: seq<Pair>)
    ensures pairs == AllTurns(ms, |ms|)
  {
    pairs := [];
    var i := 0;
    while i + 1 < |ms|
      invariant 0 <= i
      invariant pairs + PairsFrom(ms, i) == PairsFrom(ms, 0)
    {
      if ms[i].role == "user" && ms[i + 1].role == "assistant" {
        pairs := pairs + [Pair(ms[i].text, ms[i + 1].text)];
        i := i + 2;
      } else {
        i := i + 1;
      }
    }
    PairsFromAll(ms, 0);
  }

  // ----- pairs, declaratively

  lemma {:induction false} TurnPositions(ms: seq<Message>, n: nat) returns (ks: seq<nat>)
    ensures Ascending(ks) && |ks| == |AllTurns(ms, n)|
    ensures forall k: nat :: k in ks <==> k < n && k + 1 < |ms| && IsTurn(ms, k)
    ensures forall a :: 0 <= a < |ks| ==> ks[a] + 1 < |ms| && IsTurn(ms, ks[a])
    ensures forall a :: 0 <= a < |ks| ==> AllTurns(ms, n)[a] == Pair(ms[ks[a]].text, ms[ks[a] + 1].text)
  {
    if n == 0 {
      ks := [];
    } else {
      ks := TurnPositions(ms, n - 1);
      forall a | 0 <= a < |ks| ensures ks[a] < n - 1 {
        assert ks[a] in ks;
      }
      if n < |ms| && IsTurn(ms, n - 1) {
        ks := ks + [n - 1];
      }
    }
  }

  /** A user and an assistant who both say something, and between them nobody does. */
  ghost predicate Adjacent(nodes: map<Id, Node>, ids: seq<Id>, i: nat, j: nat) {
    && i < j && SpeaksAt(nodes, ids, i) && SpeaksAt(nodes, ids, j)
    && nodes[ids[i]].role == "user" && nodes[ids[j]].role == "assistant"
    && forall m: nat :: i < m < j ==> !SpeaksAt(nodes, ids, m)
  }

  predicate Carries(nodes: map<Id, Node>, ids: seq<Id>, i: nat, j: nat, pair: Pair) {
    && i < |ids| && j < |ids| && ids[i] in nodes && ids[j] in nodes
    && pair.instruction == nodes[ids[i]].text && pair.output == nodes[ids[j]].text
  }

  /** The pairs are those of all adjacent positions, in order, each with the two texts. */
  ghost predicate Paired(nodes: map<Id, Node>, ids: seq<Id>, pairs: seq<Pair>, at: seq<(nat, nat)>) {
    && |at| == |pairs|
    && (forall a, b :: 0 <= a < b < |at| ==> at[a].0 < at[b].0)
    && (forall i: nat, j: nat :: (i, j) in at <==> Adjacent(nodes, ids, i, j))
    && forall a :: 0 <= a < |at| ==> Carries(nodes, ids, at[a].0, at[a].1, pairs[a])
  }

  /** Exactly the texts of all adjacent users and assistants, in order. */
  ghost predicate PairedFrom(nodes: map<Id, Node>, ids: seq<Id>, pairs: seq<Pair>) {
    exists at: seq<(nat, nat)> :: Paired(nodes, ids, pairs, at)
  }

  function PositionPairs(at: seq<nat>, ks: seq<nat>): (r: seq<(nat, nat)>)
    requires forall a :: 0 <= a < |ks| ==> ks[a] + 1 < |at|
    ensures |r| == |ks| && forall a :: 0 <= a < |ks| ==> r[a] == (at[ks[a]], at[ks[a] + 1])
  {
    seq(|ks|, a requires 0 <= a < |ks| => (at[ks[a]], at[ks[a] + 1]))
  }

  lemma NothingBetween(at: seq<nat>, k: nat)
    requires Ascending(at) && k + 1 < |at|
    ensures forall m: nat :: m in at ==> m <= at[k] || m >= at[k + 1]
  {
    forall m: nat | m in at ensures m <= at[k] || m >= at[k + 1] {
      var c :| 0 <= c < |at| && at[c] == m;
      assert c <= k ==> at[c] <= at[k];
    }
  }

  /** Neighbours among the collected are adjacent, if they are a turn. */
  lemma TurnIsAdjacent(nodes: map<Id, Node>, ids: seq<Id>, ms: seq<Message>, at: seq<nat>, k: nat)
    requires Collected(nodes, ids, ms, at) && k + 1 < |ms| && IsTurn(ms, k)
    ensures Adjacent(nodes, ids, at[k], at[k + 1])
    ensures Carries(nodes, ids, at[k], at[k + 1], Pair(ms[k].text, ms[k + 1].text))
  {
    assert at[k] in at && at[k + 1] in at;
    assert SaysAt(nodes, ids, at[k], ms[k]) && SaysAt(nodes, ids, at[k + 1], ms[k + 1]);
    NothingBetween(at, k);
  }

  lemma AdjacentIsTurn(nodes: map<Id, Node>, ids: seq<Id>, ms: seq<Message>, at: seq<nat>, i: nat, j: nat)
    returns (k: nat)
    requires Collected(nodes, ids, ms, at) && Adjacent(nodes, ids, i, j)
    ensures k + 1 < |ms| && IsTurn(ms, k) && at[k] == i && at[k + 1] == j
  {
    assert i in at && j in at;
    k :| 0 <= k < |at| && at[k] == i;
    var l :| 0 <= l < |at| && at[l] == j;
    assert k < l && at[k + 1] in at;
    assert at[k + 1] <= at[l];
    assert i < at[k + 1] && SpeaksAt(nodes, ids, at[k + 1]);
    assert SaysAt(nodes, ids, i, ms[k]) && SaysAt(nodes, ids, j, ms[k + 1]);
  }

  lemma TurnsArePaired(nodes: map<Id, Node>, ids: seq<Id>, ms: seq<Message>, at: seq<nat>, ks: seq<nat>)
    requires Collected(nodes, ids, ms, at) && Ascending(ks) && |ks| == |AllTurns(ms, |ms|)|
    requires forall k: nat :: k in ks <==> k < |ms| && k + 1 < |ms| && IsTurn(ms, k)
    requires forall a :: 0 <= a < |ks| ==> ks[a] + 1 < |ms| && IsTurn(ms, ks[a])
    requires forall a :: 0 <= a < |ks| ==> AllTurns(ms, |ms|)[a] == Pair(ms[ks[a]].text, ms[ks[a] + 1].text)
    ensures Paired(nodes, ids, AllTurns(ms, |ms|), PositionPairs(at, ks))
  {
    var both := PositionPairs(at, ks);
    forall a | 0 <= a < |ks|
      ensures Adjacent(nodes, ids, both[a].0, both[a].1)
      ensures Carries(nodes, ids, both[a].0, both[a].1, AllTurns(ms, |ms|)[a])
    {
      TurnIsAdjacent(nodes, ids, ms, at, ks[a]);
    }
    forall i: nat, j: nat | Adjacent(nodes, ids, i, j) ensures (i, j) in both {
      var k := AdjacentIsTurn(nodes, ids, ms, at, i, j);
      var a :| 0 <= a < |ks| && ks[a] == k;
      assert both[a] == (i, j);
    }
  }

  /** Turns of the collected messages are pairs of adjacent speakers among the ids. */
  lemma AllTurnsPaired(nodes: map<Id, Node>, ids: seq<Id>)
    ensures var ms := MessagesOf(nodes, ids); PairedFrom(nodes, ids, AllTurns(ms, |ms|))
  {
    var ms := MessagesOf(nodes, ids);
    var at := MessagesAreCollected(nodes, ids);
    var ks := TurnPositions(ms, |ms|);
    TurnsArePaired(nodes, ids, ms, at, ks);
  }

  /** parse_file_openai on one conversation. */
  method ParseConversation(t: Tree) returns (pairs: seq<Pair>)
    requires Enumerated(t)
    ensures var ms := MessagesOf(t.nodes, Preorder(t, RootId(t), t.nodes.Keys));
            pairs == AllTurns(ms, |ms|)
    ensures PairedFrom(t.nodes, Preorder(t, RootId(t), t.nodes.Keys), pairs)
  {
    AllTurnsPaired(t.nodes, Preorder(t, RootId(t), t.nodes.Keys));
    var rootId, children := BuildChildren(t);
    var ordered := Walk(t, rootId, children);
    pairs := ScanPairs(ordered);
  }
}
