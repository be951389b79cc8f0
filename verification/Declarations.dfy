/** What a list of peer definitions from several sources declares, key by key and
    without reference to the order in which a program would collect it. */
module Declarations {
  import opened Nets
  import opened NetLists
  import opened Model
  import opened Wrappers

  /** One definition together with the settings of the source that made it. */
  datatype Def =
    | ServerDef(src: SourceSettings, server: Server)
    | RoadWarriorDef(src: SourceSettings, roadWarrior: RoadWarrior)
  {
    function Decl(): PeerDecl {
      if ServerDef? then server.peer else roadWarrior.peer
    }

    function Key(): Key {
      Decl().publicKey
    }
  }

  ghost predicate ValidDef(d: Def) {
    ValidSettings(d.src) && ValidDecl(d.Decl())
  }

  datatype Reason =
    | PeerSourceNotAllowed
    | LocalPeerIsRoadWarrior
    | RoadWarriorsNotAllowed
    | UnknownBase
    | DuplicateKey
    | SomeIpsRemoved
    | AllIpsRemoved

  datatype Error = Error(src: string, peer: Key, important: bool, reason: Reason)

  function ErrorAt(d: Def, reason: Reason): Error {
    Error(d.src.name, d.Key(), reason != SomeIpsRemoved, reason)
  }

  datatype Contact = Contact(endpoint: Option<Endpoint>, psk: Option<Secret>, keepalive: nat)

  // ----- one definition -----

  /** The key is not pinned, or pinned to this source. */
  predicate Accepts(gc: GlobalConfig, src: SourceSettings, key: Key) {
    key in gc.peers && gc.peers[key].source.Some? ==> gc.peers[key].source.value == src.name
  }

  function ContactOf(gc: GlobalConfig, d: Def): Contact {
    var declared := if d.ServerDef? then Some(d.server.endpoint) else None;
    var keepalive := gc.FixKeepalive(d.Decl().keepalive);
    if d.Key() in gc.peers then
      var o := gc.peers[d.Key()];
      Contact(
        if o.endpoint.Some? then o.endpoint else declared,
        if o.psk.Some? then o.psk else d.src.psk,
        if o.keepalive.Some? then o.keepalive.value else keepalive)
    else
      Contact(declared, d.src.psk, keepalive)
  }

  /** The definition makes its key a peer of its own: an accepted server, or an
      accepted road warrior whose base is the local machine. */
  predicate Creates(gc: GlobalConfig, local: Key, d: Def) {
    && Accepts(gc, d.src, d.Key())
    && d.Key() != local
    && (d.RoadWarriorDef? ==> d.roadWarrior.base == local && d.src.allowRoadWarriors)
  }

  predicate CreatesKey(gc: GlobalConfig, local: Key, d: Def, k: Key) {
    Creates(gc, local, d) && d.Key() == k
  }

  predicate Known(gc: GlobalConfig, local: Key, defs: seq<Def>, k: Key) {
    exists m :: 0 <= m < |defs| && CreatesKey(gc, local, defs[m], k)
  }

  /** The peer that gets the networks of `d`, after the definitions `before`. */
  function Route(gc: GlobalConfig, local: Key, before: seq<Def>, d: Def): Option<Key> {
    if Creates(gc, local, d) then Some(d.Key())
    else if
      && Accepts(gc, d.src, d.Key()) && d.Key() != local
      && d.RoadWarriorDef? && d.roadWarrior.base != local && Known(gc, local, before, d.roadWarrior.base)
    then Some(d.roadWarrior.base)
    else None
  }

  /** The networks every address of which is among `ranges`, in order. */
  ghost function Granted(w: nat, ranges: seq<Net>, nets: seq<Net>): seq<Net> {
    if nets == [] then []
    else
      var n := nets[|nets| - 1];
      Granted(w, ranges, nets[..|nets| - 1]) + (if WhollyCovered(w, ranges, n) then [n] else [])
  }

  lemma {:induction false} GrantedAtMostAll(w: nat, ranges: seq<Net>, nets: seq<Net>)
    ensures |Granted(w, ranges, nets)| <= |nets|
    ensures |Granted(w, ranges, nets)| == |nets| <==> forall n :: n in nets ==> WhollyCovered(w, ranges, n)
  {
    if nets != [] {
      GrantedAtMostAll(w, ranges, nets[..|nets| - 1]);
      assert nets == nets[..|nets| - 1] + [nets[|nets| - 1]];
    }
  }

  ghost function GrantedBy(f: Family, d: Def): seq<Net> {
    Granted(Width(f), d.src.Ranges(f), d.Decl().Nets(f))
  }

  // ----- all definitions -----

  /** The first definition that makes `k` a peer. */
  function FirstCreator(gc: GlobalConfig, local: Key, defs: seq<Def>, k: Key): (r: Option<nat>)
    ensures r.Some? ==> r.value < |defs| && CreatesKey(gc, local, defs[r.value], k)
    ensures r.Some? ==> forall m :: 0 <= m < r.value ==> !CreatesKey(gc, local, defs[m], k)
    ensures r.Some? <==> Known(gc, local, defs, k)
  {
    if defs == [] then None
    else
      var n := |defs| - 1;
      var r := FirstCreator(gc, local, defs[..n], k);
      if r.Some? then r else if CreatesKey(gc, local, defs[n], k) then Some(n) else None
  }

  /** What the definitions routed to `k` are granted, in order. */
  ghost function Delivered(gc: GlobalConfig, local: Key, defs: seq<Def>, f: Family, k: Key): seq<Net> {
    if defs == [] then []
    else
      var n := |defs| - 1;
      Delivered(gc, local, defs[..n], f, k) +
      (if Route(gc, local, defs[..n], defs[n]) == Some(k) then GrantedBy(f, defs[n]) else [])
  }

  ghost function DeclaredPeer(gc: GlobalConfig, local: Key, defs: seq<Def>, k: Key): Peer
    requires Known(gc, local, defs, k)
  {
    var contact := ContactOf(gc, defs[FirstCreator(gc, local, defs, k).value]);
    Peer(contact.endpoint, contact.psk, contact.keepalive,
         Delivered(gc, local, defs, V4, k), Delivered(gc, local, defs, V6, k))
  }

  function KnownKeys(gc: GlobalConfig, local: Key, defs: seq<Def>): (r: set<Key>)
    ensures forall k :: k in r <==> Known(gc, local, defs, k)
  {
    set m | 0 <= m < |defs| && Creates(gc, local, defs[m]) :: defs[m].Key()
  }

  ghost function Declared(gc: GlobalConfig, local: Key, defs: seq<Def>): Config {
    map k | k in KnownKeys(gc, local, defs) :: DeclaredPeer(gc, local, defs, k)
  }

  ghost function IpErrors(d: Def): seq<Error> {
    var kept := |GrantedBy(V4, d)| + |GrantedBy(V6, d)|;
    if kept == |d.Decl().ipv4| + |d.Decl().ipv6| then []
    else [ErrorAt(d, if kept > 0 then SomeIpsRemoved else AllIpsRemoved)]
  }

  ghost function ErrorsOf(gc: GlobalConfig, local: Key, before: seq<Def>, d: Def): seq<Error> {
    if !Accepts(gc, d.src, d.Key()) then [ErrorAt(d, PeerSourceNotAllowed)]
    else if d.Key() == local then
      if d.ServerDef? then [] else [ErrorAt(d, LocalPeerIsRoadWarrior)]
    else if Creates(gc, local, d) then
      (if Known(gc, local, before, d.Key()) then [ErrorAt(d, DuplicateKey)] else []) + IpErrors(d)
    else if d.roadWarrior.base == local then [ErrorAt(d, RoadWarriorsNotAllowed)]
    else if Known(gc, local, before, d.roadWarrior.base) then IpErrors(d)
    else [ErrorAt(d, UnknownBase)]
  }

  ghost function Errors(gc: GlobalConfig, local: Key, defs: seq<Def>): seq<Error> {
    if defs == [] then []
    else
      var n := |defs| - 1;
      Errors(gc, local, defs[..n]) + ErrorsOf(gc, local, defs[..n], defs[n])
  }
}
