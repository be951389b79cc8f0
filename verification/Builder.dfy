/** The builder that collects the definitions of all sources into one set of peers. */
module Builder {
  import opened Nets
  import opened NetLists
  import opened Model
  import opened Declarations
  import opened Wrappers

  // ----- one more definition -----

  lemma KnownSnoc(gc: GlobalConfig, local: Key, defs: seq<Def>, d: Def, k: Key)
    ensures Known(gc, local, defs + [d], k) <==> Known(gc, local, defs, k) || CreatesKey(gc, local, d, k)
  {
    var all := defs + [d];
    if Known(gc, local, defs, k) {
      var m :| 0 <= m < |defs| && CreatesKey(gc, local, defs[m], k);
      assert all[m] == defs[m];
    }
    if CreatesKey(gc, local, d, k) {
      assert all[|defs|] == d;
    }
  }

  lemma FirstCreatorSnoc(gc: GlobalConfig, local: Key, defs: seq<Def>, d: Def, k: Key)
    requires Known(gc, local, defs, k) || CreatesKey(gc, local, d, k)
    ensures Known(gc, local, defs + [d], k)
    ensures (defs + [d])[FirstCreator(gc, local, defs + [d], k).value] ==
            if Known(gc, local, defs, k) then defs[FirstCreator(gc, local, defs, k).value] else d
  {
    KnownSnoc(gc, local, defs, d, k);
    assert (defs + [d])[..|defs|] == defs;
  }

  lemma DeliveredSnoc(gc: GlobalConfig, local: Key, defs: seq<Def>, d: Def, f: Family, k: Key)
    ensures Delivered(gc, local, defs + [d], f, k) ==
            Delivered(gc, local, defs, f, k) +
            (if Route(gc, local, defs, d) == Some(k) then GrantedBy(f, d) else [])
  {
    assert (defs + [d])[..|defs|] == defs;
  }

  /** How one more definition changes the declared peer of one key. */
  lemma {:induction false} DeclaredAt(gc: GlobalConfig, local: Key, defs: seq<Def>, d: Def, k: Key)
    ensures var c, c' := Declared(gc, local, defs), Declared(gc, local, defs + [d]);
      var routed := Route(gc, local, defs, d) == Some(k);
      && (k in c' <==> k in c || routed)
      && (k in c' ==>
        var p := if k in c then c[k] else Fresh(ContactOf(gc, d));
        c'[k] == if routed then Extend(p, d) else p)
  {
    KnownSnoc(gc, local, defs, d, k);
    if Known(gc, local, defs + [d], k) {
      FirstCreatorSnoc(gc, local, defs, d, k);
      DeliveredSnoc(gc, local, defs, d, V4, k);
      DeliveredSnoc(gc, local, defs, d, V6, k);
      if !Known(gc, local, defs, k) {
        UnknownGetsNothing(gc, local, defs, k);
      }
    }
  }

  lemma {:induction false} UnknownGetsNothing(gc: GlobalConfig, local: Key, defs: seq<Def>, k: Key)
    requires !Known(gc, local, defs, k)
    ensures forall f: Family :: Delivered(gc, local, defs, f, k) == []
  {
    if defs != [] {
      var n := |defs| - 1;
      assert defs == defs[..n] + [defs[n]];
      KnownSnoc(gc, local, defs[..n], defs[n], k);
      UnknownGetsNothing(gc, local, defs[..n], k);
    }
  }

  /** A peer without networks. */
  function Fresh(c: Contact): Peer {
    Peer(c.endpoint, c.psk, c.keepalive, [], [])
  }

  ghost function Extend(p: Peer, d: Def): Peer {
    p.(ipv4 := p.ipv4 + GrantedBy(V4, d), ipv6 := p.ipv6 + GrantedBy(V6, d))
  }

  /** How one more definition changes the declared peers. */
  lemma {:induction false} DeclaredSnoc(gc: GlobalConfig, local: Key, defs: seq<Def>, d: Def)
    ensures var c := Declared(gc, local, defs);
      var r := Route(gc, local, defs, d);
      Declared(gc, local, defs + [d]) ==
      if r.None? then c
      else c[r.value := Extend(if r.value in c then c[r.value] else Fresh(ContactOf(gc, d)), d)]
  {
    hide *;
    forall k {
      DeclaredAt(gc, local, defs, d, k);
    }
  }

  lemma ErrorsSnoc(gc: GlobalConfig, local: Key, defs: seq<Def>, d: Def)
    ensures Errors(gc, local, defs + [d]) == Errors(gc, local, defs) + ErrorsOf(gc, local, defs, d)
  {
    assert (defs + [d])[..|defs|] == defs;
  }

  /** The networks of a peer, per family: one more definition appends, in order, those of
      its networks that its source may grant, if it is routed to the peer. */
  lemma DeliveryInOrder(gc: GlobalConfig, local: Key, defs: seq<Def>, d: Def, k: Key)
    requires k in Declared(gc, local, defs + [d])
    ensures var p := Declared(gc, local, defs + [d])[k];
      var routed := Route(gc, local, defs, d) == Some(k);
      var c := Declared(gc, local, defs);
      && p.ipv4 == (if k in c then c[k].ipv4 else []) +
                   (if routed then Granted(32, d.src.ipv4, d.Decl().ipv4) else [])
      && p.ipv6 == (if k in c then c[k].ipv6 else []) +
                   (if routed then Granted(128, d.src.ipv6, d.Decl().ipv6) else [])
  {
    hide Declared, Route, ContactOf, GrantedBy;
    DeclaredAt(gc, local, defs, d, k);
    GrantedByFamily(d);
  }

  /** What one more definition changes, case by case. */
  lemma {:induction false} OneMore(gc: GlobalConfig, local: Key, defs: seq<Def>, d: Def)
    ensures var c, c' := Declared(gc, local, defs), Declared(gc, local, defs + [d]);
      var e, e' := Errors(gc, local, defs), Errors(gc, local, defs + [d]);
      var k := d.Key();
      var pinnedElsewhere := k in gc.peers && gc.peers[k].source.Some? && gc.peers[k].source.value != d.src.name;
      if pinnedElsewhere then c' == c && e' == e + [Error(d.src.name, k, true, PeerSourceNotAllowed)]
      else if k == local then
        c' == c && e' == e + if d.ServerDef? then [] else [Error(d.src.name, k, true, LocalPeerIsRoadWarrior)]
      else if d.RoadWarriorDef? && d.roadWarrior.base != local then
        var base := d.roadWarrior.base;
        if base in c then c' == c[base := Extend(c[base], d)] && e' == e + IpErrors(d)
        else c' == c && e' == e + [Error(d.src.name, k, true, UnknownBase)]
      else if d.RoadWarriorDef? && !d.src.allowRoadWarriors then
        c' == c && e' == e + [Error(d.src.name, k, true, RoadWarriorsNotAllowed)]
      else if k in c then
        c' == c[k := Extend(c[k], d)] && e' == e + [Error(d.src.name, k, true, DuplicateKey)] + IpErrors(d)
      else c' == c[k := Extend(Fresh(ContactOf(gc, d)), d)] && e' == e + IpErrors(d)
  {
    hide Declared, Errors, Known, IpErrors, Extend, Fresh, ContactOf;
    DeclaredSnoc(gc, local, defs, d);
    ErrorsSnoc(gc, local, defs, d);
    DeclaredKeys(gc, local, defs);
  }

  lemma UpdateTwice(c: Config, k: Key, p: Peer, q: Peer)
    ensures c[k := p][k := q] == c[k := q]
  {}

  lemma DeclaredKeys(gc: GlobalConfig, local: Key, defs: seq<Def>)
    ensures forall k :: k in Declared(gc, local, defs) <==> Known(gc, local, defs, k)
  {}

  class ConfigBuilder {
    const gc: GlobalConfig
    const local: Key
    var c: Config
    var err: seq<Error>
    ghost var defs: seq<Def>  // the definitions added so far

    ghost predicate Valid()
      reads this
    {
      c == Declared(gc, local, defs) && err == Errors(gc, local, defs)
    }

    constructor (local: Key, gc: GlobalConfig)
      ensures this.local == local && this.gc == gc && defs == [] && Valid()
    {
      this.local := local;
      this.gc := gc;
      c := map[];
      err := [];
      defs := [];
    }

    method AddServer(src: SourceSettings, p: Server)
      requires Valid() && ValidDef(ServerDef(src, p))
      modifies this
      ensures Valid() && defs == old(defs) + [ServerDef(src, p)]
    {
      hide Declared, Errors, ContactOf, IpErrors, Extend, Fresh, ValidDef, Creates;
      ghost var d := ServerDef(src, p);
      OneMore(gc, local, defs, d);
      defs := defs + [d];
      var r := PeerContact(gc, src, p.peer);
      if r.Err? {
        err := err + [r.error];
        return;
      }
      var contact := r.value;
      if contact.endpoint.None? {
        contact := contact.(endpoint := Some(p.endpoint));
      }
      if p.peer.publicKey == local {
        return;
      }
      InsertPeer(src, p.peer, contact);
      AddPeer(p.peer.publicKey, src, p.peer, d);
      UpdateTwice(old(c), d.Key(), Fresh(contact), c[d.Key()]);
    }

    method AddRoadWarrior(src: SourceSettings, p: RoadWarrior)
      requires Valid() && ValidDef(RoadWarriorDef(src, p))
      modifies this
      ensures Valid() && defs == old(defs) + [RoadWarriorDef(src, p)]
    {
      hide Declared, Errors, ContactOf, IpErrors, Extend, Fresh, ValidDef, Creates;
      ghost var d := RoadWarriorDef(src, p);
      OneMore(gc, local, defs, d);
      defs := defs + [d];
      var r := PeerContact(gc, src, p.peer);
      if r.Err? {
        err := err + [r.error];
        return;
      }
      if p.peer.publicKey == local {
        err := err + [Error(src.name, p.peer.publicKey, true, LocalPeerIsRoadWarrior)];
        return;
      }
      var ent;
      if p.base == local {
        if !src.allowRoadWarriors {
          err := err + [Error(src.name, p.peer.publicKey, true, RoadWarriorsNotAllowed)];
          return;
        }
        InsertPeer(src, p.peer, r.value);
        ent := p.peer.publicKey;
      } else if p.base in c {
        ent := p.base;
      } else {
        err := err + [Error(src.name, p.peer.publicKey, true, UnknownBase)];
        return;
      }
      AddPeer(ent, src, p.peer, d);
      UpdateTwice(old(c), d.Key(), Fresh(r.value), c[ent]);
    }

    /** Makes the key a peer unless it is one already. */
    method InsertPeer(src: SourceSettings, p: PeerDecl, contact: Contact)
      modifies this`c, this`err
      ensures c == if p.publicKey in old(c) then old(c) else old(c)[p.publicKey := Fresh(contact)]
      ensures err == old(err) +
        if p.publicKey in old(c) then [Error(src.name, p.publicKey, true, DuplicateKey)] else []
    {
      if p.publicKey in c {
        err := err + [Error(src.name, p.publicKey, true, DuplicateKey)];
      } else {
        c := c[p.publicKey := Peer(contact.endpoint, contact.psk, contact.keepalive, [], [])];
      }
    }

    /** Adds to peer `ent` the networks the source may grant. */
    method AddPeer(ent: Key, src: SourceSettings, p: PeerDecl, ghost d: Def)
      requires ent in c && ValidDef(d) && d.src == src && d.Decl() == p
      modifies this`c, this`err
      ensures c == old(c)[ent := Extend(old(c)[ent], d)]
      ensures err == old(err) + IpErrors(d)
    {
      hide Canonical, AllValid, Granted, GrantedBy, ValidDef;
      var peer := c[ent];
      DefIsValid(d);
      GrantedAtMostAll(32, src.ipv4, p.ipv4);
      GrantedAtMostAll(128, src.ipv6, p.ipv6);
      GrantedByFamily(d);
      var ipv4, added4, removed4 := PushGranted(32, src.ipv4, p.ipv4, peer.ipv4);
      var ipv6, added6, removed6 := PushGranted(128, src.ipv6, p.ipv6, peer.ipv6);
      c := c[ent := peer.(ipv4 := ipv4, ipv6 := ipv6)];
      var added := added4 || added6;
      if removed4 || removed6 {
        var msg := if added then SomeIpsRemoved else AllIpsRemoved;
        err := err + [Error(src.name, p.publicKey, !added, msg)];
      }
    }
  }

  /** Appends the networks the ranges wholly cover; the loop the program runs once
      for each address family. */
  method PushGranted(w: nat, ranges: seq<Net>, nets: seq<Net>, into: seq<Net>)
    returns (r: seq<Net>, added: bool, removed: bool)
    requires Canonical(w, ranges) && AllValid(w, nets)
    ensures r == into + Granted(w, ranges, nets)
    ensures added <==> Granted(w, ranges, nets) != []
    ensures removed <==> |Granted(w, ranges, nets)| != |nets|
  {
    hide Canonical, AllValid, ValidNet, WhollyCovered, ContainsNet, Granted;
    PrefixesFit(w, ranges, nets);
    GrantedAtMostAll(w, ranges, nets[..0]);
    r, added, removed := into, false, false;
    for i := 0 to |nets|
      invariant r == into + Granted(w, ranges, nets[..i])
      invariant added <==> Granted(w, ranges, nets[..i]) != []
      invariant removed <==> |Granted(w, ranges, nets[..i])| != i
    {
      GrantedSnoc(w, ranges, nets, i);
      ContainsNetIsExact(w, ranges, nets[i]);
      if ContainsNet(w, ranges, nets[i]) {
        r := r + [nets[i]];
        added := true;
      } else {
        removed := true;
      }
    }
    assert nets[..|nets|] == nets;
  }

  lemma PrefixesFit(w: nat, ranges: seq<Net>, nets: seq<Net>)
    requires Canonical(w, ranges) && AllValid(w, nets)
    ensures forall i :: 0 <= i < |ranges| ==> ranges[i].prefixLen <= w
    ensures forall i :: 0 <= i < |nets| ==> nets[i].prefixLen <= w && ValidNet(w, nets[i])
  {}

  lemma DefIsValid(d: Def)
    requires ValidDef(d)
    ensures Canonical(32, d.src.ipv4) && AllValid(32, d.Decl().ipv4)
    ensures Canonical(128, d.src.ipv6) && AllValid(128, d.Decl().ipv6)
  {
    assert Canonical(Width(V4), d.src.Ranges(V4)) && AllValid(Width(V4), d.Decl().Nets(V4));
    assert Canonical(Width(V6), d.src.Ranges(V6)) && AllValid(Width(V6), d.Decl().Nets(V6));
  }

  lemma GrantedByFamily(d: Def)
    ensures GrantedBy(V4, d) == Granted(32, d.src.ipv4, d.Decl().ipv4)
    ensures GrantedBy(V6, d) == Granted(128, d.src.ipv6, d.Decl().ipv6)
  {}

  /** What is granted of a list, network by network, in order. */
  lemma GrantedSnoc(w: nat, ranges: seq<Net>, nets: seq<Net>, i: nat)
    requires i < |nets|
    ensures Granted(w, ranges, nets[..i + 1]) ==
            Granted(w, ranges, nets[..i]) + (if WhollyCovered(w, ranges, nets[i]) then [nets[i]] else [])
    ensures |Granted(w, ranges, nets[..i])| <= i && Granted(w, ranges, nets[..0]) == []
  {
    assert nets[..i + 1][..i] == nets[..i];
    GrantedAtMostAll(w, ranges, nets[..i]);
  }

  /** How to reach the peer: the source's values unless overridden for the key. The
      endpoint of a server is filled in by the caller. */
  method PeerContact(gc: GlobalConfig, src: SourceSettings, p: PeerDecl) returns (r: Result<Contact, Error>)
    ensures r.Err? <==> !Accepts(gc, src, p.publicKey)
    ensures r.Err? ==> r.error == Error(src.name, p.publicKey, true, PeerSourceNotAllowed)
    ensures r.Ok? ==> forall base :: r.value == ContactOf(gc, RoadWarriorDef(src, RoadWarrior(p, base)))
    ensures r.Ok? ==> forall endpoint ::
      ContactOf(gc, ServerDef(src, Server(p, endpoint))) ==
      if r.value.endpoint.None? then r.value.(endpoint := Some(endpoint)) else r.value
  {
    var contact := Contact(None, src.psk, gc.FixKeepalive(p.keepalive));
    if p.publicKey in gc.peers {
      var pc := gc.peers[p.publicKey];
      if pc.source.Some? && pc.source.value != src.name {
        return Err(Error(src.name, p.publicKey, true, PeerSourceNotAllowed));
      }
      if pc.endpoint.Some? {
        contact := contact.(endpoint := pc.endpoint);
      }
      if pc.psk.Some? {
        contact := contact.(psk := pc.psk);
      }
      if pc.keepalive.Some? {
        contact := contact.(keepalive := pc.keepalive.value);
      }
    }
    return Ok(contact);
  }
}
