/** dip/src/identity_doc.rs: the registry of identity documents and its reverse index. */
module Registry {
  import opened Wrappers

  datatype Network = Vantage | Nostr | A2A | Mcp | Meshtastic | Freenet | Libp2p

  datatype Equivalence = Equivalence(network: Network, address: string, proof: string, verified: bool)

  datatype Endpoint = Endpoint(kind: string, url: string, protocol: string)

  datatype Document = Document(did: string, created: nat, equivalences: seq<Equivalence>,
                               endpoints: seq<Endpoint>, merkleRoot: string, signature: string)

  function NetworkName(n: Network): string {
    match n
    case Vantage => "vantage"
    case Nostr => "nostr"
    case A2A => "a2a"
    case Mcp => "mcp"
    case Meshtastic => "meshtastic"
    case Freenet => "freenet"
    case Libp2p => "libp2p"
  }

  function Key(n: Network, address: string): string {
    NetworkName(n) + ":" + address
  }

  lemma NetworkNameInjective(m: Network, n: Network)
    requires NetworkName(m) == NetworkName(n)
    ensures m == n
  {
    var s, t := NetworkName(m), NetworkName(n);
    assert |s| == |t| && s[0] == t[0] && s[1] == t[1] && s[2] == t[2];
  }

  lemma NoColon(n: Network)
    ensures forall i :: 0 <= i < |NetworkName(n)| ==> NetworkName(n)[i] != ':'
  {
    match n
    case Vantage => assert NetworkName(n) == "vantage";
    case Nostr => assert NetworkName(n) == "nostr";
    case A2A => assert NetworkName(n) == "a2a";
    case Mcp => assert NetworkName(n) == "mcp";
    case Meshtastic => assert NetworkName(n) == "meshtastic";
    case Freenet => assert NetworkName(n) == "freenet";
    case Libp2p => assert NetworkName(n) == "libp2p";
  }

  /** No network name contains a colon, so the first colon of a key ends the name. */
  lemma KeyInjective(m: Network, a: string, n: Network, b: string)
    requires Key(m, a) == Key(n, b)
    ensures m == n && a == b
  {
    var s, t := NetworkName(m), NetworkName(n);
    NoColon(m);
    NoColon(n);
    var k := Key(m, a);
    assert k[..|s|] == s && k[|s|] == ':' && k[|s| + 1..] == a;
    assert k[..|t|] == t && k[|t|] == ':' && k[|t| + 1..] == b;
    NetworkNameInjective(m, n);
  }

  // ----- the state and its steps

  datatype State = State(docs: map<string, Document>, byAddress: map<string, string>)

  /** The reverse index after the first equivalences of a document of this DID. */
  function Indexed(index: map<string, string>, did: string, equivalences: seq<Equivalence>): map<string, string> {
    if equivalences == [] then index
    else
      var n := |equivalences| - 1;
      Indexed(index, did, equivalences[..n])[Key(equivalences[n].network, equivalences[n].address) := did]
  }

  function Registered(s: State, doc: Document): State {
    State(s.docs[doc.did := doc], Indexed(s.byAddress, doc.did, doc.equivalences))
  }

  /** The state after a sequence of registrations. */
  function After(history: seq<Document>): State {
    if history == [] then State(map[], map[])
    else Registered(After(history[..|history| - 1]), history[|history| - 1])
  }

  function FindDid(s: State, did: string): Option<Document> {
    if did in s.docs then Some(s.docs[did]) else None
  }

  function FindAddress(s: State, n: Network, address: string): Option<string> {
    var key := Key(n, address);
    if key !in s.byAddress then None
    else if s.byAddress[key] !in s.docs then None
    else Some(s.docs[s.byAddress[key]].did)
  }

  class IdentityRegistry {
    var docs: map<string, Document>
    var byAddress: map<string, string>

    ghost function Contents(): State
      reads this
    {
      State(docs, byAddress)
    }

    constructor ()
      ensures Contents() == After([])
    {
      docs, byAddress := map[], map[];
    }

    method Register(doc: Document)
      modifies this
      ensures Contents() == Registered(old(Contents()), doc)
    {
      for i := 0 to |doc.equivalences|
        invariant docs == old(docs)
        invariant byAddress == Indexed(old(byAddress), doc.did, doc.equivalences[..i])
      {
        var eq := doc.equivalences[i];
        byAddress := byAddress[Key(eq.network, eq.address) := doc.did];
        assert doc.equivalences[..i + 1][..i] == doc.equivalences[..i];
      }
      assert doc.equivalences[..|doc.equivalences|] == doc.equivalences;
      docs := docs[doc.did := doc];
    }

    method ResolveDid(did: string) returns (r: Option<Document>)
      ensures r == FindDid(Contents(), did)
    {
      r := if did in docs then Some(docs[did]) else None;
    }

    method ResolveAddress(n: Network, address: string) returns (r: Option<string>)
      ensures r == FindAddress(Contents(), n, address)
    {
      var key := Key(n, address);
      if key !in byAddress || byAddress[key] !in docs {
        return None;
      }
      r := Some(docs[byAddress[key]].did);
    }
  }

  // ----- what a history means

  predicate Lists(doc: Document, n: Network, address: string) {
    exists e :: e in doc.equivalences && e.network == n && e.address == address
  }

  /** The last document of the history that lists the address. */
  function LastLister(history: seq<Document>, n: Network, address: string): Option<Document> {
    if history == [] then None
    else
      var doc := history[|history| - 1];
      if Lists(doc, n, address) then Some(doc) else LastLister(history[..|history| - 1], n, address)
  }

  /** The last document registered for the DID. */
  function Current(history: seq<Document>, did: string): Option<Document> {
    if history == [] then None
    else if history[|history| - 1].did == did then Some(history[|history| - 1])
    else Current(history[..|history| - 1], did)
  }

  lemma {:induction false} IndexedIs(index: map<string, string>, did: string, es: seq<Equivalence>,
                                     n: Network, a: string)
    ensures var r, key := Indexed(index, did, es), Key(n, a);
            if exists e :: e in es && e.network == n && e.address == a
            then key in r && r[key] == did
            else (key in r <==> key in index) && (key in index ==> r[key] == index[key])
  {
    if es != [] {
      var init, last := es[..|es| - 1], es[|es| - 1];
      IndexedIs(index, did, init, n, a);
      assert forall e :: e in es <==> e in init || e == last;
      if Key(last.network, last.address) == Key(n, a) {
        KeyInjective(last.network, last.address, n, a);
      }
    }
  }

  lemma {:induction false} DocsAre(history: seq<Document>, did: string)
    ensures FindDid(After(history), did) == Current(history, did)
    ensures did in After(history).docs ==> After(history).docs[did].did == did
  {
    if history != [] {
      DocsAre(history[..|history| - 1], did);
    }
  }

  lemma {:induction false} CurrentKept(history: seq<Document>, doc: Document)
    requires doc in history
    ensures Current(history, doc.did).Some? && Current(history, doc.did).value.did == doc.did
  {
    if history[|history| - 1].did != doc.did {
      CurrentKept(history[..|history| - 1], doc);
    }
  }

  lemma {:induction false} IndexIs(history: seq<Document>, n: Network, a: string)
    ensures var s, key := After(history), Key(n, a);
            match LastLister(history, n, a)
            case None => key !in s.byAddress
            case Some(doc) => doc in history && Lists(doc, n, a) && key in s.byAddress && s.byAddress[key] == doc.did
  {
    if history != [] {
      var init, last := history[..|history| - 1], history[|history| - 1];
      IndexIs(init, n, a);
      IndexedIs(After(init).byAddress, last.did, last.equivalences, n, a);
    }
  }

  /** After any registrations an address resolves to the DID of the last document that listed it, and to
      nothing exactly when none did. It never dangles: the DID it names resolves to a document. */
  lemma AddressResolvesToLastLister(history: seq<Document>, n: Network, a: string)
    ensures var r, last := FindAddress(After(history), n, a), LastLister(history, n, a);
            && (r.Some? <==> last.Some?)
            && (r.Some? ==> r.value == last.value.did && FindDid(After(history), r.value).Some?)
  {
    IndexIs(history, n, a);
    var last := LastLister(history, n, a);
    if last.Some? {
      DocsAre(history, last.value.did);
      CurrentKept(history, last.value);
    }
  }

  lemma RegisterStep(history: seq<Document>, doc: Document, n: Network, a: string)
    ensures FindAddress(After(history + [doc]), n, a)
            == if Lists(doc, n, a) then Some(doc.did) else FindAddress(After(history), n, a)
    ensures forall did :: FindDid(After(history + [doc]), did)
                          == if did == doc.did then Some(doc) else FindDid(After(history), did)
  {
    var longer := history + [doc];
    assert longer[..|longer| - 1] == history;
    AddressResolvesToLastLister(history, n, a);
    AddressResolvesToLastLister(longer, n, a);
  }

  /** DipIdentityDocument::address_for: the address of the first equivalence of the network. */
  function AddressFor(equivalences: seq<Equivalence>, n: Network): Option<string> {
    if equivalences == [] then None
    else if equivalences[0].network == n then Some(equivalences[0].address)
    else AddressFor(equivalences[1..], n)
  }

  lemma {:induction false} AddressForIsListed(equivalences: seq<Equivalence>, n: Network)
    ensures match AddressFor(equivalences, n)
            case None => forall e :: e in equivalences ==> e.network != n
            case Some(a) => exists e :: e in equivalences && e.network == n && e.address == a
  {
    if equivalences != [] && equivalences[0].network != n {
      AddressForIsListed(equivalences[1..], n);
    }
  }

  /** And no equivalence before it is of that network. */
  lemma {:induction false} AddressForIsFirst(equivalences: seq<Equivalence>, n: Network) returns (i: nat)
    requires AddressFor(equivalences, n).Some?
    ensures i < |equivalences| && equivalences[i].network == n
    ensures AddressFor(equivalences, n) == Some(equivalences[i].address)
    ensures forall k :: 0 <= k < i ==> equivalences[k].network != n
  {
    if equivalences[0].network == n {
      i := 0;
    } else {
      var k := AddressForIsFirst(equivalences[1..], n);
      i := k + 1;
    }
  }

  /** Right after a document is registered, the address it gives for a network leads back to its DID. */
  lemma AddressForResolves(history: seq<Document>, doc: Document, n: Network)
    ensures var a := AddressFor(doc.equivalences, n);
            a.Some? ==> FindAddress(After(history + [doc]), n, a.value) == Some(doc.did)
  {
    var a := AddressFor(doc.equivalences, n);
    AddressForIsListed(doc.equivalences, n);
    if a.Some? {
      RegisterStep(history, doc, n, a.value);
    }
  }

  // ----- when the index and the documents agree

  predicate AgreesOn(history: seq<Document>, n: Network, a: string) {
    var r := FindAddress(After(history), n, a);
    r.Some? ==> var doc := FindDid(After(history), r.value); doc.Some? && Lists(doc.value, n, a)
  }

  /** Every address that resolves is listed by the document it resolves to. */
  ghost predicate Agrees(history: seq<Document>) {
    forall n: Network, a: string :: AgreesOn(history, n, a)
  }

  /** The new document of a DID keeps every address that now resolves to it. */
  ghost predicate KeepsOwnAddresses(history: seq<Document>, doc: Document) {
    forall n: Network, a: string :: FindAddress(After(history), n, a) == Some(doc.did) ==> Lists(doc, n, a)
  }

  /** The last document to list the address is about a DID whose present document still lists it. */
  predicate StillListed(history: seq<Document>, n: Network, a: string) {
    var last := LastLister(history, n, a);
    last.Some? ==> var doc := Current(history, last.value.did); doc.Some? && Lists(doc.value, n, a)
  }

  lemma AgreesOnIff(history: seq<Document>, n: Network, a: string)
    ensures AgreesOn(history, n, a) <==> StillListed(history, n, a)
  {
    AddressResolvesToLastLister(history, n, a);
    var last := LastLister(history, n, a);
    if last.Some? {
      DocsAre(history, last.value.did);
    }
  }

  /** For every history, read off the documents alone: index and documents agree exactly when every
      address that was ever listed is still listed by the present document of its last lister's DID. */
  lemma AgreesIff(history: seq<Document>)
    ensures Agrees(history) <==> forall n: Network, a: string :: StillListed(history, n, a)
  {
    forall n: Network, a: string ensures AgreesOn(history, n, a) <==> StillListed(history, n, a) {
      AgreesOnIff(history, n, a);
    }
    if Agrees(history) {
      forall n: Network, a: string ensures StillListed(history, n, a) {
        assert AgreesOn(history, n, a);
      }
    }
  }

  /** Nothing removes an address from the index. So an agreement survives a registration exactly when the
      new document of a DID lists all addresses that resolve to that DID. */
  lemma AgreementKeptIff(history: seq<Document>, doc: Document)
    requires Agrees(history)
    ensures Agrees(history + [doc]) <==> KeepsOwnAddresses(history, doc)
  {
    var longer := history + [doc];
    if KeepsOwnAddresses(history, doc) {
      forall n: Network, a: string ensures AgreesOn(longer, n, a) {
        RegisterStep(history, doc, n, a);
        assert AgreesOn(history, n, a);
      }
    }
    if Agrees(longer) {
      forall n: Network, a: string | FindAddress(After(history), n, a) == Some(doc.did)
        ensures Lists(doc, n, a)
      {
        RegisterStep(history, doc, n, a);
        assert AgreesOn(longer, n, a);
      }
    }
  }

  /** A DID registers an address and then a document without any: the address still resolves to it. When
      the first document comes back, index and documents agree again. */
  lemma StaleAddress(did: string, a: string)
    ensures var first := Document(did, 0, [Equivalence(Nostr, a, "", false)], [], "", "");
            var second := first.(equivalences := []);
            && FindAddress(After([first, second]), Nostr, a) == Some(did)
            && FindDid(After([first, second]), did) == Some(second) && !Lists(second, Nostr, a)
            && !Agrees([first, second])
            && Agrees([first, second, first])
  {
    var e := Equivalence(Nostr, a, "", false);
    var first := Document(did, 0, [e], [], "", "");
    var second := first.(equivalences := []);
    assert e in first.equivalences && Lists(first, Nostr, a);
    assert [] + [first] == [first] && [first] + [second] == [first, second];
    RegisterStep([], first, Nostr, a);
    RegisterStep([first], second, Nostr, a);
    assert !AgreesOn([first, second], Nostr, a);
    forall n: Network, b: string ensures AgreesOn([first, second, first], n, b) {
      assert [first, second] + [first] == [first, second, first];
      RegisterStep([], first, n, b);
      RegisterStep([first], second, n, b);
      RegisterStep([first, second], first, n, b);
      assert After([]) == State(map[], map[]);
    }
  }

  /** Documents of pairwise different DIDs never break the agreement. */
  lemma {:induction false} FreshDidsAgree(history: seq<Document>)
    requires forall i, j :: 0 <= i < j < |history| ==> history[i].did != history[j].did
    ensures Agrees(history)
  {
    if history == [] {
      forall n: Network, a: string ensures AgreesOn(history, n, a) {
      }
    } else {
      var init, last := history[..|history| - 1], history[|history| - 1];
      FreshDidsAgree(init);
      assert history == init + [last];
      forall n: Network, a: string ensures FindAddress(After(init), n, a) != Some(last.did) {
        IndexIs(init, n, a);
        AddressResolvesToLastLister(init, n, a);
      }
      AgreementKeptIff(init, last);
    }
  }
}
