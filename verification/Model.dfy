/** The data the daemon works on: what sources declare, what the administrator
    configures, and the peers that result. */
module Model {
  import opened Nets
  import opened NetLists
  import opened Wrappers

  /** The 32 bytes of a WireGuard key as a number. */
  type Key = nat

  datatype Secret = Secret(key: Key)

  datatype Endpoint = Endpoint(address: nat, port: nat)

  // ----- the two address families -----

  datatype Family = V4 | V6

  function Width(f: Family): nat {
    if f.V4? then 32 else 128
  }

  // ----- what a source declares -----

  datatype PeerDecl = PeerDecl(publicKey: Key, ipv4: seq<Net>, ipv6: seq<Net>, keepalive: nat) {
    function Nets(f: Family): seq<Net> {
      if f.V4? then ipv4 else ipv6
    }
  }

  datatype Server = Server(peer: PeerDecl, endpoint: Endpoint)

  datatype RoadWarrior = RoadWarrior(peer: PeerDecl, base: Key)

  datatype SourceConfig = SourceConfig(servers: seq<Server>, roadWarriors: seq<RoadWarrior>)

  /** A configuration that replaces the present one at a given time. */
  datatype Switch = Switch(at: int, config: SourceConfig)

  datatype SourceData = SourceData(config: SourceConfig, next: Option<Switch>)

  // ----- what the administrator configures -----

  datatype SourceSettings = SourceSettings(
    name: string, psk: Option<Secret>, ipv4: seq<Net>, ipv6: seq<Net>, allowRoadWarriors: bool)
  {
    function Ranges(f: Family): seq<Net> {
      if f.V4? then ipv4 else ipv6
    }
  }

  datatype Override = Override(
    source: Option<string>, endpoint: Option<Endpoint>, psk: Option<Secret>, keepalive: Option<nat>)

  datatype GlobalConfig = GlobalConfig(minKeepalive: nat, maxKeepalive: nat, peers: map<Key, Override>)
  {
    /** Zero means no keepalive; a maximum of zero means no maximum. */
    function FixKeepalive(keepalive: nat): (r: nat)
      ensures r != 0 ==> r >= minKeepalive
      ensures maxKeepalive != 0 ==> r != 0 && (r <= maxKeepalive || r == minKeepalive)
      ensures maxKeepalive == 0 ==> (r == 0 <==> keepalive == 0)
      ensures r != keepalive ==> r == minKeepalive || r == maxKeepalive
      ensures 0 < minKeepalive <= keepalive <= maxKeepalive ==> r == keepalive
      // without a maximum
      ensures maxKeepalive == 0 && (keepalive == 0 || keepalive >= minKeepalive) ==> r == keepalive
      ensures maxKeepalive == 0 && 0 < keepalive < minKeepalive ==> r == minKeepalive
      // with a maximum; the minimum wins if it is larger
      ensures 0 < maxKeepalive < minKeepalive ==> r == minKeepalive
      ensures 0 < maxKeepalive && minKeepalive <= maxKeepalive && (keepalive == 0 || keepalive > maxKeepalive) ==>
        r == maxKeepalive
      ensures 0 < keepalive <= maxKeepalive && minKeepalive <= keepalive ==> r == keepalive
      ensures 0 < keepalive < minKeepalive <= maxKeepalive ==> r == minKeepalive
    {
      var k := if maxKeepalive != 0 && (keepalive == 0 || keepalive > maxKeepalive) then maxKeepalive else keepalive;
      if k != 0 && k < minKeepalive then minKeepalive else k
    }
  }

  // ----- the peers to set up -----

  datatype Peer = Peer(
    endpoint: Option<Endpoint>, psk: Option<Secret>, keepalive: nat, ipv4: seq<Net>, ipv6: seq<Net>)
  {
    function Nets(f: Family): seq<Net> {
      if f.V4? then ipv4 else ipv6
    }
  }

  type Config = map<Key, Peer>

  // ----- what the types of the program guarantee -----

  ghost predicate ValidDecl(p: PeerDecl) {
    forall f: Family :: AllValid(Width(f), p.Nets(f))
  }

  ghost predicate ValidSettings(src: SourceSettings) {
    forall f: Family :: Canonical(Width(f), src.Ranges(f))
  }

  ghost predicate ValidSourceConfig(sc: SourceConfig) {
    && (forall i :: 0 <= i < |sc.servers| ==> ValidDecl(sc.servers[i].peer))
    && (forall i :: 0 <= i < |sc.roadWarriors| ==> ValidDecl(sc.roadWarriors[i].peer))
  }

  ghost predicate ValidData(d: SourceData) {
    ValidSourceConfig(d.config) && (d.next.Some? ==> ValidSourceConfig(d.next.value.config))
  }
}
