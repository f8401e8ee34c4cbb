/** merkle_root over any two lists of fields: when the root fixes the fields. Leaves and inner nodes are
    hashed alike, so a text of 64 bytes can stand for two digests; nothing else is confused. */
module FieldRoots {
  import opened Wire
  import opened Wrappers
  import opened Text
  import opened BTree
  import opened Merkle
  import opened Simulation

  // ----- roots of hashed texts

  const NODE_BYTES: nat := 64

  /** The digest that merkle_root prints, for any list of texts, the empty one included. */
  function RootOf(h: HashFn, texts: seq<Bytes>): Hash {
    if texts == [] then h([]) else CombineLeaves(h, Leaves(h, texts))
  }

  /** The last message hashed on the way to the root. */
  function Top(h: HashFn, texts: seq<Bytes>): Bytes {
    if texts == [] then []
    else if |texts| == 1 then texts[0]
    else NodeMessage(RootOf(h, texts[..Mid(|texts|)]), RootOf(h, texts[Mid(|texts|)..]))
  }

  lemma LeavesSplit(h: HashFn, texts: seq<Bytes>, i: nat)
    requires i <= |texts|
    ensures Leaves(h, texts)[..i] == Leaves(h, texts[..i]) && Leaves(h, texts)[i..] == Leaves(h, texts[i..])
  {
  }

  lemma RootIsTop(h: HashFn, texts: seq<Bytes>)
    ensures RootOf(h, texts) == h(Top(h, texts))
  {
    if |texts| == 1 {
      assert Leaves(h, texts) == [h(texts[0])];
    } else if |texts| > 1 {
      CombineSplits(h, Leaves(h, texts));
      LeavesSplit(h, texts, Mid(|texts|));
    }
  }

  lemma RootOfIsMerkleRoot(h: HashFn, fields: seq<Entry<Json>>)
    ensures MerkleRoot(h, fields) == "sha256:" + Hex(RootOf(h, Messages(fields)))
  {
  }

  /** Walks two trees of any shapes down from equal roots to the first pair of messages that differ. */
  function FindClash(h: HashFn, a: seq<Bytes>, b: seq<Bytes>): Option<(Bytes, Bytes)>
    decreases |a|
  {
    var x, y := Top(h, a), Top(h, b);
    if x != y then Some((x, y))
    else if |a| < 2 || |b| < 2 then None
    else
      var left := FindClash(h, a[..Mid(|a|)], b[..Mid(|b|)]);
      if left.Some? then left else FindClash(h, a[Mid(|a|)..], b[Mid(|b|)..])
  }

  /** No text is empty, and none can be mistaken for an inner node. */
  predicate Plain(texts: seq<Bytes>) {
    forall i :: 0 <= i < |texts| ==> texts[i] != [] && |texts[i]| != NODE_BYTES
  }

  /** A list with two texts or more hashes 64 bytes last, any other list something else. */
  lemma TopSize(h: HashFn, texts: seq<Bytes>)
    requires Plain(texts)
    ensures |Top(h, texts)| == NODE_BYTES <==> |texts| >= 2
    ensures Top(h, texts) == [] <==> texts == []
  {
  }

  lemma SameTop(h: HashFn, a: seq<Bytes>, b: seq<Bytes>)
    requires |a| >= 2 && |b| >= 2 && Top(h, a) == Top(h, b)
    ensures RootOf(h, a[..Mid(|a|)]) == RootOf(h, b[..Mid(|b|)])
    ensures RootOf(h, a[Mid(|a|)..]) == RootOf(h, b[Mid(|b|)..])
  {
    NodeMessageInjective(RootOf(h, a[..Mid(|a|)]), RootOf(h, a[Mid(|a|)..]),
                         RootOf(h, b[..Mid(|b|)]), RootOf(h, b[Mid(|b|)..]));
  }

  /** What the walk finds are two messages with one hash. */
  lemma {:induction false} ClashCollides(h: HashFn, a: seq<Bytes>, b: seq<Bytes>)
    requires RootOf(h, a) == RootOf(h, b)
    ensures FindClash(h, a, b).Some? ==> Collides(h, FindClash(h, a, b).value)
    decreases |a|
  {
    RootIsTop(h, a);
    RootIsTop(h, b);
    if Top(h, a) == Top(h, b) && |a| >= 2 && |b| >= 2 {
      SameTop(h, a, b);
      ClashCollides(h, a[..Mid(|a|)], b[..Mid(|b|)]);
      ClashCollides(h, a[Mid(|a|)..], b[Mid(|b|)..]);
    }
  }

  /** And it finds something whenever the lists differ, whatever their lengths. */
  lemma {:induction false} NoClashIff(h: HashFn, a: seq<Bytes>, b: seq<Bytes>)
    requires Plain(a) && Plain(b)
    ensures FindClash(h, a, b).None? <==> a == b
    decreases |a|
  {
    TopSize(h, a);
    TopSize(h, b);
    if |a| >= 2 && |b| >= 2 {
      var al, ar, bl, br := a[..Mid(|a|)], a[Mid(|a|)..], b[..Mid(|b|)], b[Mid(|b|)..];
      assert a == al + ar && b == bl + br;
      NoClashIff(h, al, bl);
      NoClashIff(h, ar, br);
    }
  }

  // ----- reading a field back out of its text

  lemma HexDigitsPlain()
    ensures forall d: nat :: d < 16 ==> HexDigit(d) != '\"'
  {
    assert forall i | 0 <= i < 16 :: "0123456789abcdef"[i] != '\"';
  }

  lemma QuoteInChar(c: char, i: nat)
    requires i < |JsonChar(c)| && JsonChar(c)[i] == '\"'
    ensures i == 1 && JsonChar(c)[0] == '\\'
  {
    HexDigitsPlain();
  }

  /** Inside a rendered string every quote has a backslash before it. */
  lemma {:induction false} QuotesEscaped(s: string, i: nat)
    requires i < |JsonBody(s)| && JsonBody(s)[i] == '\"'
    ensures i > 0 && JsonBody(s)[i - 1] == '\\'
  {
    var head := JsonChar(s[0]);
    if i < |head| {
      QuoteInChar(s[0], i);
    } else {
      QuotesEscaped(s[1..], i - |head|);
    }
  }

  lemma QuoteInside(v: Json, p: nat)
    requires v.JString? && 0 < p < |Render(v)| - 1 && Render(v)[p] == '\"'
    ensures Render(v)[p - 1] == '\\'
  {
    var r := Render(v);
    assert r[p] == JsonBody(v.s)[p - 1];
    QuotesEscaped(v.s, p - 1);
    assert r[p - 1] == JsonBody(v.s)[p - 2];
  }

  lemma ValueEnds(v: Json)
    ensures var r := Render(v);
            && r != []
            && (v.JString? ==> |r| >= 2 && r[0] == '\"' && r[|r| - 1] == '\"')
            && (v.JNumber? ==> AllDigits(r))
  {
  }

  /** A proper suffix of a value's text that is itself a value's text does not stand after a colon. */
  lemma SuffixAfterColon(v: Json, v': Json, p: nat)
    requires 0 < p < |Render(v)| && Render(v)[p..] == Render(v')
    ensures Render(v)[p - 1] != ':'
  {
    var r, r' := Render(v), Render(v');
    ValueEnds(v);
    ValueEnds(v');
    assert r[|r| - 1] == r'[|r'| - 1] && r[p] == r'[0];
    if v.JString? && v'.JString? {
      QuoteInside(v, p);
    }
  }

  function FieldText(e: Entry<Json>): string {
    e.key + ":" + Render(e.value)
  }

  lemma LongerKeyDiffers(e: Entry<Json>, e': Entry<Json>)
    requires |e.key| < |e'.key|
    ensures FieldText(e) != FieldText(e')
  {
    var t, t', p := FieldText(e), FieldText(e'), |e'.key| - |e.key|;
    ValueEnds(e'.value);
    assert t'[|e'.key|] == ':' && t'[|e'.key| + 1..] == Render(e'.value);
    assert t[|e.key| + 1..] == Render(e.value);
    if |t| == |t'| && t[|e'.key| + 1..] == Render(e'.value) {
      assert Render(e.value)[p..] == t[|e'.key| + 1..];
      assert Render(e.value)[p - 1] == t[|e'.key|];
      SuffixAfterColon(e.value, e'.value, p);
    }
  }

  /** Keys may contain colons and quotes, and still a text "key:value" fixes key and value. */
  lemma FieldTextInjective(e: Entry<Json>, e': Entry<Json>)
    requires FieldText(e) == FieldText(e')
    ensures e == e'
  {
    assert |e.key| == |e'.key| by {
      if |e.key| < |e'.key| {
        LongerKeyDiffers(e, e');
      } else if |e'.key| < |e.key| {
        LongerKeyDiffers(e', e);
      }
    }
    var t := FieldText(e);
    assert t[..|e.key|] == e.key && t[..|e.key|] == e'.key;
    assert t[|e.key| + 1..] == Render(e.value) && t[|e.key| + 1..] == Render(e'.value);
    ValueEnds(e.value);
    ValueEnds(e'.value);
    SameRendering(e.value, e'.value);
  }

  lemma MessagesInjective(f: seq<Entry<Json>>, g: seq<Entry<Json>>)
    requires Messages(f) == Messages(g)
    ensures f == g
  {
    assert |f| == |Messages(f)| == |g|;
    forall i | 0 <= i < |f| ensures f[i] == g[i] {
      assert Messages(f)[i] == LeafMessage(f[i]) && Messages(g)[i] == LeafMessage(g[i]);
      Utf8Injective(FieldText(f[i]), FieldText(g[i]));
      FieldTextInjective(f[i], g[i]);
    }
  }

  // ----- the root of a list of fields

  predicate NoNodeSized(fields: seq<Entry<Json>>) {
    forall i :: 0 <= i < |fields| ==> |LeafMessage(fields[i])| != NODE_BYTES
  }

  lemma FieldsPlain(fields: seq<Entry<Json>>)
    requires NoNodeSized(fields)
    ensures Plain(Messages(fields))
  {
  }

  /** Any two lists of fields, of any lengths, with one root and no text of 64 bytes: the fields are the
      same, or the walk returns a genuine collision; and it never returns one when they are the same. */
  lemma MerkleRootBinds(h: HashFn, f: seq<Entry<Json>>, g: seq<Entry<Json>>)
    requires MerkleRoot(h, f) == MerkleRoot(h, g) && NoNodeSized(f) && NoNodeSized(g)
    ensures FindClash(h, Messages(f), Messages(g)).None? <==> f == g
    ensures FindClash(h, Messages(f), Messages(g)).Some?
            ==> Collides(h, FindClash(h, Messages(f), Messages(g)).value)
  {
    var a, b := RootOf(h, Messages(f)), RootOf(h, Messages(g));
    RootOfIsMerkleRoot(h, f);
    RootOfIsMerkleRoot(h, g);
    PrefixCancels("sha256:", Hex(a), Hex(b));
    HexInjective(a, b);
    FieldsPlain(f);
    FieldsPlain(g);
    NoClashIff(h, Messages(f), Messages(g));
    ClashCollides(h, Messages(f), Messages(g));
    if FindClash(h, Messages(f), Messages(g)).None? {
      MessagesInjective(f, g);
    }
  }

  /** 64 bytes are the boundary. For every hash a text made of two leaf digests has the root of those two
      leaves, and there is nothing to find. */
  lemma NodeAsText(h: HashFn, x: Bytes, y: Bytes)
    ensures var texts, node := [x, y], [NodeMessage(h(x), h(y))];
            && |node[0]| == NODE_BYTES && RootOf(h, node) == RootOf(h, texts)
            && FindClash(h, node, texts) == None
  {
    var texts, node := [x, y], [NodeMessage(h(x), h(y))];
    assert Mid(2) == 1;
    assert texts[..1] == [x] && texts[1..] == [y];
    RootIsTop(h, [x]);
    RootIsTop(h, [y]);
    RootIsTop(h, node);
    RootIsTop(h, texts);
  }

  /** And no field of that size is safe: some hash gives it the root of two other fields. */
  lemma FieldAsNode(e: Entry<Json>, e1: Entry<Json>, e2: Entry<Json>) returns (h: HashFn)
    requires |LeafMessage(e)| == NODE_BYTES && e1 != e2
    ensures MerkleRoot(h, [e]) == MerkleRoot(h, [e1, e2])
    ensures FindClash(h, Messages([e]), Messages([e1, e2])) == None
  {
    var t, x, y := LeafMessage(e), LeafMessage(e1), LeafMessage(e2);
    if x == y {
      Utf8Injective(FieldText(e1), FieldText(e2));
      FieldTextInjective(e1, e2);
    }
    var first: Hash, second: Hash := t[..32], t[32..];
    h := (m: Bytes) => if m == x then first else second;
    assert NodeMessage(h(x), h(y)) == t;
    NodeAsText(h, x, y);
    assert Messages([e]) == [t] && Messages([e1, e2]) == [x, y];
  }
}
