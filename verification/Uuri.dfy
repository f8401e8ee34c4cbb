/** sovereign-types/src/uuri.rs: the address parser and its printer. */
module Uuri {
  import opened Wrappers

  datatype Uuri =
    | Nostr(relay: string, npub: string)
    | Sui(objectId: string)
    | Freenet(contractKey: string)
    | Zima(serverId: string, appName: string)
    | Mesh(nodeId: string)
    | Web(url: string)
    | LibP2P(peerId: string)
    | Email(address: string)

  datatype Error = Empty | UnknownScheme(scheme: string) | Malformed(message: string)

  /** str::find: the text before and after the first slash. */
  function SplitSlash(s: string): Option<(string, string)> {
    if s == [] then None
    else if s[0] == '/' then Some(([], s[1..]))
    else
      match SplitSlash(s[1..])
      case None => None
      case Some(parts) => Some(([s[0]] + parts.0, parts.1))
  }

  /** The part before the first "://", or the whole text. */
  function Scheme(s: string): string {
    if s == [] || "://" <= s then [] else [s[0]] + Scheme(s[1..])
  }

  const ZIMA_SHAPE: string := "zima:// requires <server>/<app>"

  function ParseNostr(rest: string): Uuri {
    match SplitSlash(rest)
    case Some(parts) => Nostr(parts.0, parts.1)
    case None => Nostr("", rest)
  }

  function ParseZima(rest: string): Result<Uuri, Error> {
    match SplitSlash(rest)
    case Some(parts) => Ok(Zima(parts.0, parts.1))
    case None => Err(Malformed(ZIMA_SHAPE))
  }

  function Parse(s: string): Result<Uuri, Error> {
    if s == "" then Err(Empty)
    else if "nostr://" <= s then Ok(ParseNostr(s[8..]))
    else if "sui://" <= s then Ok(Sui(s[6..]))
    else if "freenet://" <= s then Ok(Freenet(s[10..]))
    else if "zima://" <= s then ParseZima(s[7..])
    else if "mesh://" <= s then Ok(Mesh(s[7..]))
    else if "libp2p://" <= s then Ok(LibP2P(s[9..]))
    else if "email://" <= s then Ok(Email(s[8..]))
    else if "https://" <= s || "http://" <= s then Ok(Web(s))
    else Err(UnknownScheme(Scheme(s)))
  }

  function Print(u: Uuri): string {
    match u
    case Nostr(relay, npub) => if relay == "" then "nostr://" + npub else "nostr://" + relay + "/" + npub
    case Sui(objectId) => "sui://" + objectId
    case Freenet(contractKey) => "freenet://" + contractKey
    case Zima(serverId, appName) => "zima://" + serverId + "/" + appName
    case Mesh(nodeId) => "mesh://" + nodeId
    case Web(url) => url
    case LibP2P(peerId) => "libp2p://" + peerId
    case Email(address) => "email://" + address
  }

  // ----- the first slash

  lemma {:induction false} SplitSlashIff(s: string)
    ensures SplitSlash(s).Some? <==> '/' in s
    ensures SplitSlash(s).Some? ==>
              var p := SplitSlash(s).value; '/' !in p.0 && s == p.0 + "/" + p.1
  {
    if s != [] {
      assert s == [s[0]] + s[1..];
      SplitSlashIff(s[1..]);
      if s[0] == '/' {
        assert s == "" + "/" + s[1..];
      } else if SplitSlash(s[1..]).Some? {
        var p := SplitSlash(s[1..]).value;
        assert s == ([s[0]] + p.0) + "/" + p.1;
      }
    }
  }

  lemma {:induction false} SplitSlashOf(a: string, b: string)
    requires '/' !in a
    ensures SplitSlash(a + "/" + b) == Some((a, b))
  {
    var s := a + "/" + b;
    if a == [] {
      assert s[1..] == b;
    } else {
      assert s[1..] == a[1..] + "/" + b;
      SplitSlashOf(a[1..], b);
      assert a == [a[0]] + a[1..];
    }
  }

  // ----- value, text, value

  /** The values the printer can write without loss. */
  predicate Writable(u: Uuri) {
    match u
    case Nostr(relay, npub) => if relay == "" then '/' !in npub else '/' !in relay
    case Zima(serverId, _) => '/' !in serverId
    case Web(url) => "https://" <= url || "http://" <= url
    case _ => true
  }

  lemma NostrBack(relay: string, npub: string)
    ensures Parse(Print(Nostr(relay, npub))) == Ok(Nostr(relay, npub)) <==> Writable(Nostr(relay, npub))
  {
    var s := Print(Nostr(relay, npub));
    var rest := if relay == "" then npub else relay + "/" + npub;
    assert s == "nostr://" + rest && s[8..] == rest;
    SplitSlashIff(rest);
    if relay != "" && '/' !in relay {
      SplitSlashOf(relay, npub);
    }
  }

  lemma ZimaBack(serverId: string, appName: string)
    ensures Parse(Print(Zima(serverId, appName))) == Ok(Zima(serverId, appName)) <==> '/' !in serverId
  {
    var s := Print(Zima(serverId, appName));
    var rest := serverId + "/" + appName;
    assert s == "zima://" + rest && s[7..] == rest && s[0] == 'z';
    SplitSlashIff(rest);
    if '/' !in serverId {
      SplitSlashOf(serverId, appName);
    }
  }

  // The schemes differ in their first letters.

  lemma SuiBack(x: string)
    ensures Parse("sui://" + x) == Ok(Sui(x))
  {
    var s := "sui://" + x;
    assert s[0] == 's' && s[6..] == x && "sui://" <= s;
  }

  lemma FreenetBack(x: string)
    ensures Parse("freenet://" + x) == Ok(Freenet(x))
  {
    var s := "freenet://" + x;
    assert s[0] == 'f' && s[10..] == x && "freenet://" <= s;
  }

  lemma MeshBack(x: string)
    ensures Parse("mesh://" + x) == Ok(Mesh(x))
  {
    var s := "mesh://" + x;
    assert s[0] == 'm' && s[7..] == x && "mesh://" <= s;
  }

  lemma LibP2PBack(x: string)
    ensures Parse("libp2p://" + x) == Ok(LibP2P(x))
  {
    var s := "libp2p://" + x;
    assert s[0] == 'l' && s[9..] == x && "libp2p://" <= s;
  }

  lemma EmailBack(x: string)
    ensures Parse("email://" + x) == Ok(Email(x))
  {
    var s := "email://" + x;
    assert s[0] == 'e' && s[8..] == x && "email://" <= s;
  }

  lemma WebBack(url: string)
    ensures Parse(url) == Ok(Web(url)) <==> "https://" <= url || "http://" <= url
  {
    if "https://" <= url || "http://" <= url {
      assert url[0] == 'h';
    }
  }

  /** A printed value parses back to itself exactly when it is writable. */
  lemma RoundTripIff(u: Uuri)
    ensures Parse(Print(u)) == Ok(u) <==> Writable(u)
  {
    match u
    case Nostr(relay, npub) => NostrBack(relay, npub);
    case Zima(serverId, appName) => ZimaBack(serverId, appName);
    case Sui(x) => SuiBack(x);
    case Freenet(x) => FreenetBack(x);
    case Mesh(x) => MeshBack(x);
    case LibP2P(x) => LibP2PBack(x);
    case Email(x) => EmailBack(x);
    case Web(url) => WebBack(url);
  }

  // ----- text, value, text

  lemma NostrReprint(rest: string)
    ensures Print(ParseNostr(rest)) == "nostr://" + rest <==> !("/" <= rest)
  {
    SplitSlashIff(rest);
    if SplitSlash(rest).Some? {
      var p := SplitSlash(rest).value;
      if p.0 == "" {
        assert |Print(ParseNostr(rest))| < |"nostr://" + rest|;
      } else {
        assert rest[0] == p.0[0];
        assert "nostr://" + (p.0 + "/" + p.1) == "nostr://" + p.0 + "/" + p.1;
      }
    }
  }

  lemma ZimaReprint(rest: string)
    requires ParseZima(rest).Ok?
    ensures Print(ParseZima(rest).value) == "zima://" + rest
  {
    SplitSlashIff(rest);
    var p := SplitSlash(rest).value;
    assert "zima://" + (p.0 + "/" + p.1) == "zima://" + p.0 + "/" + p.1;
  }

  lemma EmptyRelay(s: string)
    ensures "nostr:///" <= s <==> "nostr://" <= s && "/" <= s[8..]
  {
    if "nostr://" <= s && "/" <= s[8..] {
      assert s[8] == s[8..][0];
    }
  }

  lemma Rejoin(s: string, prefix: string)
    requires prefix <= s
    ensures prefix + s[|prefix|..] == s
  {
  }

  /** Outside the two schemes with inner structure nothing is cut away but the prefix. */
  lemma PlainReprint(s: string)
    requires Parse(s).Ok? && !("nostr://" <= s) && !("zima://" <= s)
    ensures Print(Parse(s).value) == s
  {
    if "sui://" <= s {
      Rejoin(s, "sui://");
    } else if "freenet://" <= s {
      Rejoin(s, "freenet://");
    } else if "mesh://" <= s {
      Rejoin(s, "mesh://");
    } else if "libp2p://" <= s {
      Rejoin(s, "libp2p://");
    } else if "email://" <= s {
      Rejoin(s, "email://");
    }
  }

  lemma StructuredReprint(s: string)
    requires Parse(s).Ok? && ("nostr://" <= s || "zima://" <= s)
    ensures Print(Parse(s).value) == s <==> !("nostr://" <= s && "/" <= s[8..])
  {
    if "nostr://" <= s {
      NostrReprint(s[8..]);
      Rejoin(s, "nostr://");
    } else {
      assert s[0] == 'z';
      ZimaReprint(s[7..]);
      Rejoin(s, "zima://");
    }
  }

  /** An accepted text is printed back unchanged exactly when it does not begin with an empty relay. */
  lemma ReprintIff(s: string)
    requires Parse(s).Ok?
    ensures Print(Parse(s).value) == s <==> !("nostr:///" <= s)
  {
    EmptyRelay(s);
    if "nostr://" <= s || "zima://" <= s {
      StructuredReprint(s);
    } else {
      PlainReprint(s);
    }
  }

  /** Printing what was parsed and parsing again gives the same address, except for an empty relay
      whose key contains a slash: each pass then eats one more slash. */
  lemma ReparseIff(s: string)
    requires Parse(s).Ok?
    ensures Parse(Print(Parse(s).value)) == Parse(s) <==> !("nostr:///" <= s && '/' in s[9..])
  {
    RoundTripIff(Parse(s).value);
    EmptyRelay(s);
    if "nostr://" <= s {
      var rest := s[8..];
      SplitSlashIff(rest);
      if "/" <= rest {
        assert rest[1..] == s[9..];
      }
    } else if "zima://" <= s {
      SplitSlashIff(s[7..]);
    }
  }

  /** An empty relay is dropped from the printed text. */
  lemma EmptyRelayDropped()
    ensures Parse("nostr:///k") == Ok(Nostr("", "k"))
    ensures Print(Nostr("", "k")) == "nostr://k" != "nostr:///k"
  {
    var s := "nostr:///k";
    assert s[8..] == "" + "/" + "k";
    SplitSlashOf("", "k");
    assert |"nostr://k"| != |s|;
  }

  /** And when the key has a slash of its own, part of the key becomes the relay. */
  lemma KeyBecomesRelay()
    ensures Parse("nostr:///a/b") == Ok(Nostr("", "a/b"))
    ensures Parse(Print(Nostr("", "a/b"))) == Ok(Nostr("a", "b"))
  {
    var s := "nostr:///a/b";
    assert s[8..] == "" + "/" + "a/b";
    SplitSlashOf("", "a/b");
    var t := Print(Nostr("", "a/b"));
    assert t[8..] == "a" + "/" + "b";
    SplitSlashOf("a", "b");
  }

  // ----- rejected texts

  /** The prefixes that are known. */
  predicate KnownScheme(s: string) {
    || "nostr://" <= s || "sui://" <= s || "freenet://" <= s || "zima://" <= s || "mesh://" <= s
    || "libp2p://" <= s || "email://" <= s || "https://" <= s || "http://" <= s
  }

  /** Which texts are rejected, and with which error. */
  lemma RejectsIff(s: string)
    ensures Parse(s) == Err(Empty) <==> s == ""
    ensures Parse(s).Err? && Parse(s).error.Malformed? <==> "zima://" <= s && '/' !in s[7..]
    ensures Parse(s).Err? && Parse(s).error.UnknownScheme? <==> s != "" && !KnownScheme(s)
  {
    if "zima://" <= s {
      assert s[0] == 'z';
      SplitSlashIff(s[7..]);
    }
  }

  lemma {:induction false} SchemeIsPrefix(s: string)
    ensures Scheme(s) == s || Scheme(s) + "://" <= s
  {
    if s == [] {
    } else if "://" <= s {
      assert Scheme(s) + "://" == "://";
    } else {
      SchemeIsPrefix(s[1..]);
      assert s == [s[0]] + s[1..];
      assert [s[0]] + Scheme(s[1..]) + "://" == [s[0]] + (Scheme(s[1..]) + "://");
    }
  }

  lemma {:induction false} SchemeIsFirst(s: string, i: nat)
    requires i < |Scheme(s)|
    ensures i < |s| && !("://" <= s[i..])
  {
    if i == 0 {
      assert s[0..] == s;
    } else {
      SchemeIsFirst(s[1..], i - 1);
      assert s[i..] == s[1..][i - 1..];
    }
  }

  /** A text that is neither empty nor of a known scheme is rejected, and the error names exactly what
      stands before its first "://". */
  lemma UnknownNamesScheme(s: string)
    requires Parse(s).Err? && Parse(s).error.UnknownScheme?
    ensures var scheme := Parse(s).error.scheme;
            && (scheme == s || scheme + "://" <= s)
            && (forall i :: 0 <= i < |scheme| ==> !("://" <= s[i..]))
  {
    SchemeIsPrefix(s);
    forall i | 0 <= i < |Scheme(s)| ensures !("://" <= s[i..]) {
      SchemeIsFirst(s, i);
    }
  }
}
