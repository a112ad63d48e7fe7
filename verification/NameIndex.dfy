/** Name look-up for a cluster: objects owned by name, and indexes of plain references by address. */
module NameIndex {
  import opened Numeration
  import opened Text

  // ----- the addresses a service answers to -----

  function Domain(name: string, namespaceValue: string): string {
    name + "." + namespaceValue + ".svc.cluster.local"
  }

  /** A 16-bit port number. */
  type Port = p: nat | p < 0x1_0000

  function WithPort(host: string, port: Port): string { host + ":" + Ito10(port) }

  lemma WithPortInjective(host: string, port: Port, host': string, port': Port)
    requires WithPort(host, port) == WithPort(host', port')
    ensures host == host' && port == port'
  {
    Ito10Exact(port, Ito10(port));
    Ito10Exact(port', Ito10(port'));
    TrailingDigitsUnique(host + ":", Ito10(port), host' + ":", Ito10(port'));
    assert host == (host + ":")[..|host|] && host' == (host' + ":")[..|host'|];
  }

  lemma PortIsNoDomain(host: string, port: Port, name: string, namespaceValue: string)
    ensures WithPort(host, port) != Domain(name, namespaceValue)
  {
    Ito10Exact(port, Ito10(port));
    var w, d := WithPort(host, port), Domain(name, namespaceValue);
    assert IsDigit(w[|w| - 1]);
    assert d[|d| - 1] == 'l';
  }

  lemma DomainInjective(name: string, space: string, space': string)
    requires Domain(name, space) == Domain(name, space')
    ensures space == space'
  {
    var d, d' := Domain(name, space), Domain(name, space');
    assert |d| == |name| + 1 + |space| + 18 && |d'| == |name| + 1 + |space'| + 18;
    assert space == d[|name| + 1..|name| + 1 + |space|];
    assert space' == d'[|name| + 1..|name| + 1 + |space'|];
  }

  function PortPeers(domain: string, ip: string, ports: seq<Port>): seq<string> {
    if ports == [] then []
    else
      var port := ports[|ports| - 1];
      PortPeers(domain, ip, ports[..|ports| - 1]) + [WithPort(ip, port), WithPort(domain, port)]
  }

  function IpPeers(domain: string, ips: seq<string>, ports: seq<Port>): seq<string> {
    if ips == [] then []
    else
      var ip := ips[|ips| - 1];
      IpPeers(domain, ips[..|ips| - 1], ports) + [ip] + PortPeers(domain, ip, ports)
  }

  class Service {
    const name: string
    const namespaceValue: string
    const clusterIPs: seq<string>
    const ports: seq<Port>
    var peers: seq<string>

    function AllPeers(): seq<string> {
      var domain := Domain(name, namespaceValue);
      [domain] + IpPeers(domain, clusterIPs, ports)
    }

    /** The list is filled at most once. */
    ghost predicate Valid()
      reads this
    {
      peers == [] || peers == AllPeers()
    }

    constructor (name: string, namespaceValue: string, clusterIPs: seq<string>, ports: seq<Port>)
      ensures Valid() && this.name == name && this.namespaceValue == namespaceValue
      ensures this.clusterIPs == clusterIPs && this.ports == ports
    {
      this.name, this.namespaceValue, this.clusterIPs, this.ports := name, namespaceValue, clusterIPs, ports;
      peers := [];
    }

    method ToPeer() returns (r: seq<string>)
      requires Valid()
      modifies this`peers
      ensures Valid() && r == peers == AllPeers()
    {
      if peers != [] {
        return peers;
      }
      var domain := Domain(name, namespaceValue);
      peers := peers + [domain];
      var i := 0;
      while i < |clusterIPs|
        invariant i <= |clusterIPs|
        invariant peers == [domain] + IpPeers(domain, clusterIPs[..i], ports)
      {
        var ip := clusterIPs[i];
        TakeOne(clusterIPs, i);
        ghost var before := peers;
        peers := peers + [ip];
        var j := 0;
        while j < |ports|
          invariant j <= |ports|
          invariant peers == before + [ip] + PortPeers(domain, ip, ports[..j])
        {
          TakeOne(ports, j);
          peers := peers + [WithPort(ip, ports[j])];
          peers := peers + [WithPort(domain, ports[j])];
          j := j + 1;
        }
        assert ports[..j] == ports;
        i := i + 1;
      }
      assert clusterIPs[..i] == clusterIPs;
      return peers;
    }
  }

  class Endpoint {
    const name: string
    const namespaceValue: string
    const addresses: seq<string>

    constructor (name: string, namespaceValue: string, addresses: seq<string>)
      ensures this.name == name && this.namespaceValue == namespaceValue && this.addresses == addresses
    {
      this.name, this.namespaceValue, this.addresses := name, namespaceValue, addresses;
    }
  }

  class Pod {
    const name: string
    const namespaceValue: string
    const podIp: string

    constructor (name: string, namespaceValue: string, podIp: string)
      ensures this.name == name && this.namespaceValue == namespaceValue && this.podIp == podIp
    {
      this.name, this.namespaceValue, this.podIp := name, namespaceValue, podIp;
    }
  }

  lemma TakeOne<T>(s: seq<T>, i: nat)
    requires i < |s|
    ensures s[..i + 1] != [] && s[..i + 1][..|s[..i + 1]| - 1] == s[..i] && s[..i + 1][|s[..i + 1]| - 1] == s[i]
  {
  }

  lemma {:induction false} PortPeersAre(domain: string, ip: string, ports: seq<Port>, p: string)
    ensures p in PortPeers(domain, ip, ports) <==>
            exists port :: port in ports && (p == WithPort(ip, port) || p == WithPort(domain, port))
  {
    if ports != [] {
      PortPeersAre(domain, ip, ports[..|ports| - 1], p);
      assert ports == ports[..|ports| - 1] + [ports[|ports| - 1]];
    }
  }

  predicate OfIp(domain: string, ip: string, ports: seq<Port>, p: string) {
    p == ip || p in PortPeers(domain, ip, ports)
  }

  lemma {:induction false} IpPeersAre(domain: string, ips: seq<string>, ports: seq<Port>, p: string)
    ensures p in IpPeers(domain, ips, ports) <==>
            exists ip :: ip in ips && OfIp(domain, ip, ports, p)
  {
    if ips != [] {
      var rest, last := ips[..|ips| - 1], ips[|ips| - 1];
      IpPeersAre(domain, rest, ports, p);
      assert ips == rest + [last];
      assert p in IpPeers(domain, ips, ports) <==> p in IpPeers(domain, rest, ports) || OfIp(domain, last, ports, p);
    }
  }

  lemma PeerIff(s: Service, p: string)
    ensures var domain := Domain(s.name, s.namespaceValue);
            p in s.AllPeers() <==> p == domain || exists ip :: ip in s.clusterIPs && OfIp(domain, ip, s.ports, p)
  {
    IpPeersAre(Domain(s.name, s.namespaceValue), s.clusterIPs, s.ports, p);
  }

  /** What a service answers to: its domain, each of its addresses, and with each of its ports every address and, if
      there is an address, the domain. */
  lemma PeersExactly(s: Service, p: string)
    ensures var domain := s.name + "." + s.namespaceValue + ".svc.cluster.local";
            p in s.AllPeers()
            <==> p == domain || p in s.clusterIPs
                 || exists ip, port :: ip in s.clusterIPs && port in s.ports
                                       && (p == ip + ":" + Ito10(port) || p == domain + ":" + Ito10(port))
  {
    var domain := s.name + "." + s.namespaceValue + ".svc.cluster.local";
    PeerIff(s, p);
    forall ip
      ensures p in PortPeers(domain, ip, s.ports) <==>
              exists port :: port in s.ports && (p == ip + ":" + Ito10(port) || p == domain + ":" + Ito10(port))
    {
      PortPeersAre(domain, ip, s.ports, p);
    }
  }

  lemma PortPeerOf(domain: string, ip: string, ports: seq<Port>, host: string, port: Port)
    ensures WithPort(host, port) in PortPeers(domain, ip, ports) <==> port in ports && (host == ip || host == domain)
  {
    var p := WithPort(host, port);
    PortPeersAre(domain, ip, ports, p);
    if p in PortPeers(domain, ip, ports) {
      var q :| q in ports && (p == WithPort(ip, q) || p == WithPort(domain, q));
      if p == WithPort(ip, q) {
        WithPortInjective(host, port, ip, q);
      } else {
        WithPortInjective(host, port, domain, q);
      }
    }
  }

  /** A text with a port is a peer exactly when it is one of the addresses, or a listed port of an address or of the
      domain of a service that has addresses. */
  lemma PortPeerIff(s: Service, host: string, port: Port)
    ensures WithPort(host, port) in s.AllPeers()
            <==> WithPort(host, port) in s.clusterIPs
                 || (port in s.ports && (host in s.clusterIPs
                                         || (s.clusterIPs != [] && host == Domain(s.name, s.namespaceValue))))
  {
    var domain, p := Domain(s.name, s.namespaceValue), WithPort(host, port);
    PeerIff(s, p);
    PortIsNoDomain(host, port, s.name, s.namespaceValue);
    forall ip
      ensures OfIp(domain, ip, s.ports, p) <==> p == ip || (port in s.ports && (host == ip || host == domain))
    {
      PortPeerOf(domain, ip, s.ports, host, port);
    }
    if s.clusterIPs != [] {
      assert s.clusterIPs[0] in s.clusterIPs;
    }
  }

  lemma DomainPeerIff(s: Service, name: string, space: string)
    ensures Domain(name, space) in s.AllPeers()
            <==> Domain(name, space) == Domain(s.name, s.namespaceValue) || Domain(name, space) in s.clusterIPs
  {
    var domain, p := Domain(s.name, s.namespaceValue), Domain(name, space);
    PeerIff(s, p);
    forall ip
      ensures OfIp(domain, ip, s.ports, p) <==> p == ip
    {
      PortPeersAre(domain, ip, s.ports, p);
      forall port: Port
        ensures p != WithPort(ip, port) && p != WithPort(domain, port)
      {
        PortIsNoDomain(ip, port, name, space);
        PortIsNoDomain(domain, port, name, space);
      }
    }
  }

  /** More addresses and more ports give more peers. */
  lemma PeersGrow(a: Service, b: Service, p: string)
    requires a.name == b.name && a.namespaceValue == b.namespaceValue
    requires (forall ip :: ip in a.clusterIPs ==> ip in b.clusterIPs)
    requires (forall port :: port in a.ports ==> port in b.ports)
    requires p in a.AllPeers()
    ensures p in b.AllPeers()
  {
    var domain := Domain(a.name, a.namespaceValue);
    IpPeersAre(domain, a.clusterIPs, a.ports, p);
    IpPeersAre(domain, b.clusterIPs, b.ports, p);
    if p in IpPeers(domain, a.clusterIPs, a.ports) {
      var ip :| ip in a.clusterIPs && OfIp(domain, ip, a.ports, p);
      PortPeersAre(domain, ip, a.ports, p);
      PortPeersAre(domain, ip, b.ports, p);
      assert OfIp(domain, ip, b.ports, p);
    }
  }

  // ----- owners and index -----

  /** Objects owned by name, and references to them by address. */
  datatype Index<T> = Index(stored: map<string, T>, byKey: map<string, T>)

  /** How an index reads the objects it refers to. */
  datatype View<!T> = View(nameOf: T -> string, lists: T -> seq<string>)

  ghost predicate Live<T>(ix: Index<T>, v: View<T>, x: T) {
    v.nameOf(x) in ix.stored && ix.stored[v.nameOf(x)] == x
  }

  ghost predicate Keyed<T>(ix: Index<T>, v: View<T>) {
    forall n :: n in ix.stored ==> v.nameOf(ix.stored[n]) == n
  }

  /** Every address leads to an object that is still owned and lists that address. */
  ghost predicate Sound<T>(ix: Index<T>, v: View<T>) {
    Keyed(ix, v) && forall k :: k in ix.byKey ==> Live(ix, v, ix.byKey[k]) && k in v.lists(ix.byKey[k])
  }

  /** The index is the inverse of the address lists. */
  ghost predicate Exact<T>(ix: Index<T>, v: View<T>) {
    && Sound(ix, v)
    && forall n, k :: n in ix.stored && k in v.lists(ix.stored[n]) ==> k in ix.byKey && ix.byKey[k] == ix.stored[n]
  }

  function Drop<T>(m: map<string, T>, keys: seq<string>): map<string, T> { m - (set k | k in keys) }

  function Point<T>(m: map<string, T>, keys: seq<string>, x: T): map<string, T> { m + map k | k in keys :: x }

  /** An object replaces the one of its name; `erased` are the addresses dropped if there was one. */
  function Replace<T>(ix: Index<T>, name: string, keys: seq<string>, erased: seq<string>, x: T): Index<T> {
    Index(ix.stored[name := x], Point(if name in ix.stored then Drop(ix.byKey, erased) else ix.byKey, keys, x))
  }

  function Withdraw<T>(ix: Index<T>, name: string, erased: seq<string>): Index<T> {
    if name in ix.stored then Index(ix.stored - {name}, Drop(ix.byKey, erased)) else ix
  }

  /** The addresses that lead to the object of this name are among the given ones. */
  ghost predicate Covers<T>(ix: Index<T>, name: string, keys: seq<string>, more: seq<string>) {
    name in ix.stored ==> forall k :: k in ix.byKey && ix.byKey[k] == ix.stored[name] ==> k in keys || k in more
  }

  /** Objects of other names do not list any of the addresses. */
  ghost predicate Apart<T>(ix: Index<T>, v: View<T>, name: string, keys: seq<string>) {
    forall n, k :: n in ix.stored && n != name && k in v.lists(ix.stored[n]) ==> k !in keys
  }

  lemma ReplaceLookup<T>(ix: Index<T>, name: string, keys: seq<string>, erased: seq<string>, x: T, k: string)
    ensures var after := Replace(ix, name, keys, erased, x).byKey;
            && (k in after <==> k in keys || (k in ix.byKey && !(name in ix.stored && k in erased)))
            && (k in after ==> after[k] == if k in keys then x else ix.byKey[k])
  {
  }

  /** A replacement leaves no reference to the object it releases when the dropped and new addresses cover it. */
  lemma ReplaceSound<T>(ix: Index<T>, v: View<T>, erased: seq<string>, x: T)
    requires Sound(ix, v)
    requires Covers(ix, v.nameOf(x), erased, v.lists(x))
    ensures Sound(Replace(ix, v.nameOf(x), v.lists(x), erased, x), v)
  {
    var name, keys := v.nameOf(x), v.lists(x);
    var after := Replace(ix, name, keys, erased, x);
    forall k | k in after.byKey
      ensures Live(after, v, after.byKey[k]) && k in v.lists(after.byKey[k])
    {
      ReplaceLookup(ix, name, keys, erased, x, k);
    }
  }

  lemma ReplaceDangles<T>(ix: Index<T>, v: View<T>, erased: seq<string>, x: T)
    requires Sound(ix, v)
    requires v.nameOf(x) in ix.stored ==> ix.stored[v.nameOf(x)] != x
    requires Sound(Replace(ix, v.nameOf(x), v.lists(x), erased, x), v)
    ensures Covers(ix, v.nameOf(x), erased, v.lists(x))
  {
    var name, keys := v.nameOf(x), v.lists(x);
    var after := Replace(ix, name, keys, erased, x);
    forall k | name in ix.stored && k in ix.byKey && ix.byKey[k] == ix.stored[name]
      ensures k in erased || k in keys
    {
      ReplaceLookup(ix, name, keys, erased, x, k);
      assert k in after.byKey ==> Live(after, v, after.byKey[k]);
    }
  }

  /** Setting a service is safe exactly when every address that leads to the released one is among its own. */
  lemma SetServiceSoundIff<T>(ix: Index<T>, v: View<T>, x: T)
    requires Sound(ix, v) && (v.nameOf(x) in ix.stored ==> ix.stored[v.nameOf(x)] != x)
    ensures Sound(Replace(ix, v.nameOf(x), v.lists(x), v.lists(x), x), v) <==> Covers(ix, v.nameOf(x), v.lists(x), [])
  {
    if Covers(ix, v.nameOf(x), v.lists(x), []) {
      ReplaceSound(ix, v, v.lists(x), x);
    } else if Sound(Replace(ix, v.nameOf(x), v.lists(x), v.lists(x), x), v) {
      ReplaceDangles(ix, v, v.lists(x), x);
    }
  }

  lemma WithdrawSound<T>(ix: Index<T>, v: View<T>, name: string, erased: seq<string>)
    requires Sound(ix, v)
    ensures Sound(Withdraw(ix, name, erased), v) <==> Covers(ix, name, erased, [])
  {
    var after := Withdraw(ix, name, erased);
    if Covers(ix, name, erased, []) {
      forall k | k in after.byKey
        ensures Live(after, v, after.byKey[k]) && k in v.lists(after.byKey[k])
      {
      }
    } else {
      var k :| k in ix.byKey && ix.byKey[k] == ix.stored[name] && k !in erased;
      assert k in after.byKey;
    }
  }

  lemma OwnApart<T>(ix: Index<T>, v: View<T>, name: string)
    requires Exact(ix, v) && name in ix.stored
    ensures Apart(ix, v, name, v.lists(ix.stored[name]))
  {
    forall n, k | n in ix.stored && n != name && k in v.lists(ix.stored[n])
      ensures k !in v.lists(ix.stored[name])
    {
      assert v.nameOf(ix.stored[n]) == n && v.nameOf(ix.stored[name]) == name;
      assert ix.byKey[k] == ix.stored[n];
    }
  }

  lemma ReplaceKeepsExact<T>(ix: Index<T>, v: View<T>, erased: seq<string>, x: T)
    requires Exact(ix, v) && Covers(ix, v.nameOf(x), erased, v.lists(x))
    requires forall k :: k in erased ==>
               k in v.lists(x) || (v.nameOf(x) in ix.stored && k in v.lists(ix.stored[v.nameOf(x)]))
    requires Apart(ix, v, v.nameOf(x), v.lists(x))
    ensures Exact(Replace(ix, v.nameOf(x), v.lists(x), erased, x), v)
  {
    var name, keys := v.nameOf(x), v.lists(x);
    var after := Replace(ix, name, keys, erased, x);
    ReplaceSound(ix, v, erased, x);
    forall n, k | n in after.stored && k in v.lists(after.stored[n])
      ensures k in after.byKey && after.byKey[k] == after.stored[n]
    {
      ReplaceLookup(ix, name, keys, erased, x, k);
      if n != name {
        assert after.stored[n] == ix.stored[n] && k !in keys;
        if name in ix.stored {
          OwnApart(ix, v, name);
        }
      }
    }
  }

  lemma ReplaceClashes<T>(ix: Index<T>, v: View<T>, erased: seq<string>, x: T)
    requires Keyed(ix, v) && !Apart(ix, v, v.nameOf(x), v.lists(x))
    ensures !Exact(Replace(ix, v.nameOf(x), v.lists(x), erased, x), v)
  {
    var name, keys := v.nameOf(x), v.lists(x);
    var after := Replace(ix, name, keys, erased, x);
    var n, k :| n in ix.stored && n != name && k in v.lists(ix.stored[n]) && k in keys;
    ReplaceLookup(ix, name, keys, erased, x, k);
    assert after.stored[n] == ix.stored[n];
    assert v.nameOf(ix.stored[n]) == n;
  }

  /** After a replacement the index is exact iff nobody else lists a new address. */
  lemma ReplaceExact<T>(ix: Index<T>, v: View<T>, erased: seq<string>, x: T)
    requires Exact(ix, v) && Covers(ix, v.nameOf(x), erased, v.lists(x))
    requires forall k :: k in erased ==>
               k in v.lists(x) || (v.nameOf(x) in ix.stored && k in v.lists(ix.stored[v.nameOf(x)]))
    ensures Exact(Replace(ix, v.nameOf(x), v.lists(x), erased, x), v) <==> Apart(ix, v, v.nameOf(x), v.lists(x))
  {
    if Apart(ix, v, v.nameOf(x), v.lists(x)) {
      ReplaceKeepsExact(ix, v, erased, x);
    } else {
      ReplaceClashes(ix, v, erased, x);
    }
  }

  /** Taking an object out keeps the index exact when all its addresses, and nobody else's, are dropped. */
  lemma WithdrawExact<T>(ix: Index<T>, v: View<T>, name: string, erased: seq<string>)
    requires Exact(ix, v) && Covers(ix, name, erased, [])
    ensures Exact(Withdraw(ix, name, erased), v) <==> (name in ix.stored ==> Apart(ix, v, name, erased))
  {
    var after := Withdraw(ix, name, erased);
    WithdrawSound(ix, v, name, erased);
    if name in ix.stored && !Apart(ix, v, name, erased) {
      var n, k :| n in ix.stored && n != name && k in v.lists(ix.stored[n]) && k in erased;
      assert n in after.stored && k !in after.byKey;
    }
  }

  // ----- runs -----

  datatype Event<T> = Set(item: T) | Remove(item: T)

  /** Endpoints drop the addresses of the stored object, services those of the object in the event. */
  datatype Rule = OfStored | OfEvent

  function Erased<T>(ix: Index<T>, v: View<T>, rule: Rule, x: T): seq<string> {
    if rule == OfStored && v.nameOf(x) in ix.stored then v.lists(ix.stored[v.nameOf(x)]) else v.lists(x)
  }

  function Next<T>(ix: Index<T>, v: View<T>, rule: Rule, e: Event<T>): Index<T> {
    var x := e.item;
    if e.Set? then Replace(ix, v.nameOf(x), v.lists(x), Erased(ix, v, rule, x), x)
    else Withdraw(ix, v.nameOf(x), Erased(ix, v, rule, x))
  }

  function Run<T>(v: View<T>, rule: Rule, events: seq<Event<T>>): Index<T> {
    if events == [] then Index(map[], map[])
    else Next(Run(v, rule, events[..|events| - 1]), v, rule, events[|events| - 1])
  }

  lemma RunStep<T>(v: View<T>, rule: Rule, events: seq<Event<T>>, e: Event<T>)
    ensures Run(v, rule, events + [e]) == Next(Run(v, rule, events), v, rule, e)
  {
    assert (events + [e])[..|events + [e]| - 1] == events;
  }

  /** The stored object of the event's name lists nothing the event's object does not list. */
  ghost predicate Includes<T>(ix: Index<T>, v: View<T>, x: T) {
    v.nameOf(x) in ix.stored ==> forall k :: k in v.lists(ix.stored[v.nameOf(x)]) ==> k in v.lists(x)
  }

  ghost predicate AllInclude<T>(v: View<T>, rule: Rule, events: seq<Event<T>>) {
    forall i :: 0 <= i < |events| ==> Includes(Run(v, rule, events[..i]), v, events[i].item)
  }

  lemma NextSound<T>(ix: Index<T>, v: View<T>, rule: Rule, e: Event<T>)
    requires Sound(ix, v) && (rule == OfEvent ==> Includes(ix, v, e.item))
    ensures Sound(Next(ix, v, rule, e), v)
  {
    var x := e.item;
    if e.Set? {
      ReplaceSound(ix, v, Erased(ix, v, rule, x), x);
    } else {
      WithdrawSound(ix, v, v.nameOf(x), Erased(ix, v, rule, x));
    }
  }

  /** Endpoints: sound after any run. Services: after any run whose events never narrow the peers of a name. */
  lemma {:induction false} RunSound<T>(v: View<T>, rule: Rule, events: seq<Event<T>>)
    requires rule == OfEvent ==> AllInclude(v, rule, events)
    ensures Sound(Run(v, rule, events), v)
  {
    if events != [] {
      var before := events[..|events| - 1];
      assert forall i {:trigger before[..i]} :: 0 <= i < |before| ==> events[..i] == before[..i];
      RunSound(v, rule, before);
      NextSound(Run(v, rule, before), v, rule, events[|events| - 1]);
    }
  }

  /** Address `k` leads to `x`, which no map owns any more. */
  ghost predicate Dangles<T>(ix: Index<T>, v: View<T>, k: string, x: T) {
    k in ix.byKey && ix.byKey[k] == x && !Live(ix, v, x) && !Sound(ix, v)
  }

  /** A service that lists less than the one it replaces leaves a reference to the released one behind. */
  lemma NarrowedServiceDangles<T>(v: View<T>, a: T, b: T, k: string)
    requires a != b && v.nameOf(a) == v.nameOf(b) && k in v.lists(a) && k !in v.lists(b)
    ensures Dangles(Run(v, OfEvent, [Set(a), Set(b)]), v, k, a)
  {
    var one, two := Run(v, OfEvent, [Set(a)]), Run(v, OfEvent, [Set(a), Set(b)]);
    assert [Set(a)] == [] + [Set(a)] && [Set(a), Set(b)] == [Set(a)] + [Set(b)];
    RunStep(v, OfEvent, [], Set(a));
    RunStep(v, OfEvent, [Set(a)], Set(b));
    assert one.byKey[k] == a;
    ReplaceLookup(one, v.nameOf(b), v.lists(b), v.lists(b), b, k);
  }

  ghost predicate Occurs<T>(events: seq<Event<T>>, x: T) {
    exists i :: 0 <= i < |events| && events[i].item == x
  }

  /** Differently named objects of the events list disjoint addresses. */
  ghost predicate Disjoint<T>(v: View<T>, events: seq<Event<T>>) {
    forall i, j, k :: 0 <= i < |events| && 0 <= j < |events| && k in v.lists(events[i].item) ==>
      v.nameOf(events[i].item) == v.nameOf(events[j].item) || k !in v.lists(events[j].item)
  }

  lemma {:induction false} StoredOccurs<T>(v: View<T>, rule: Rule, events: seq<Event<T>>, n: string)
    requires n in Run(v, rule, events).stored
    ensures Occurs(events, Run(v, rule, events).stored[n])
  {
    if events != [] {
      var before, e := events[..|events| - 1], events[|events| - 1];
      if e.Set? && n == v.nameOf(e.item) {
        assert events[|events| - 1].item == e.item;
      } else {
        StoredOccurs(v, rule, before, n);
      }
    }
  }

  lemma StepExact<T>(ix: Index<T>, v: View<T>, rule: Rule, e: Event<T>)
    requires Exact(ix, v) && (rule == OfEvent ==> Includes(ix, v, e.item))
    requires Apart(ix, v, v.nameOf(e.item), v.lists(e.item))
    ensures Exact(Next(ix, v, rule, e), v)
  {
    var x := e.item;
    if e.Set? {
      ReplaceKeepsExact(ix, v, Erased(ix, v, rule, x), x);
    } else {
      WithdrawExact(ix, v, v.nameOf(x), Erased(ix, v, rule, x));
      if v.nameOf(x) in ix.stored {
        OwnApart(ix, v, v.nameOf(x));
      }
    }
  }

  /** With disjoint addresses the index is, after any run, exactly the inverse of the stored lists. */
  lemma {:induction false} RunExact<T>(v: View<T>, rule: Rule, events: seq<Event<T>>)
    requires Disjoint(v, events) && (rule == OfEvent ==> AllInclude(v, rule, events))
    ensures Exact(Run(v, rule, events), v)
  {
    if events != [] {
      var before := events[..|events| - 1];
      var ix := Run(v, rule, before);
      assert forall i {:trigger before[..i]} :: 0 <= i < |before| ==> events[..i] == before[..i];
      RunExact(v, rule, before);
      forall n | n in ix.stored
        ensures Occurs(events, ix.stored[n])
      {
        StoredOccurs(v, rule, before, n);
      }
      StepExact(ix, v, rule, events[|events| - 1]);
    }
  }

  /** Disjoint now is not enough: an address once shared can be lost to its present owner. */
  lemma SharedAddressLost<T>(v: View<T>, a: T, b: T, c: T, k: string)
    requires v.nameOf(a) == v.nameOf(c) != v.nameOf(b) && k in v.lists(a) && k in v.lists(b) && v.lists(c) == []
    ensures var ix := Run(v, OfStored, [Set(a), Set(b), Set(c)]);
            Live(ix, v, b) && k in v.lists(b) && k !in ix.byKey && Apart(ix, v, v.nameOf(b), v.lists(b))
  {
    var one, two := Run(v, OfStored, [Set(a)]), Run(v, OfStored, [Set(a), Set(b)]);
    assert [Set(a)] == [] + [Set(a)] && [Set(a), Set(b)] == [Set(a)] + [Set(b)];
    assert [Set(a), Set(b), Set(c)] == [Set(a), Set(b)] + [Set(c)];
    RunStep(v, OfStored, [], Set(a));
    RunStep(v, OfStored, [Set(a)], Set(b));
    RunStep(v, OfStored, [Set(a), Set(b)], Set(c));
    assert two.stored[v.nameOf(a)] == a;
    ReplaceLookup(two, v.nameOf(c), [], v.lists(a), c, k);
  }

  // ----- the index as it is kept -----

  const ENDPOINT_VIEW: View<Endpoint> := View((e: Endpoint) => e.name, (e: Endpoint) => e.addresses)
  const SERVICE_VIEW: View<Service> := View((s: Service) => s.name, (s: Service) => s.AllPeers())

  method EraseKeys<T>(index: map<string, T>, keys: seq<string>) returns (r: map<string, T>)
    ensures r == Drop(index, keys)
  {
    r := index;
    var i := 0;
    while i < |keys|
      invariant i <= |keys|
      invariant r == Drop(index, keys[..i])
    {
      assert keys[..i + 1] == keys[..i] + [keys[i]];
      if keys[i] in r {
        r := r - {keys[i]};
      }
      i := i + 1;
    }
    assert keys[..i] == keys;
  }

  lemma PointStep<T>(index: map<string, T>, keys: seq<string>, i: nat, x: T)
    requires i < |keys|
    ensures Point(index, keys[..i + 1], x) == Point(index, keys[..i], x)[keys[i] := x]
  {
    assert keys[..i + 1] == keys[..i] + [keys[i]];
  }

  method PointKeys<T>(index: map<string, T>, keys: seq<string>, x: T) returns (r: map<string, T>)
    ensures r == Point(index, keys, x)
  {
    r := index;
    var i := 0;
    while i < |keys|
      invariant i <= |keys|
      invariant r == Point(index, keys[..i], x)
    {
      PointStep(index, keys, i, x);
      r := r[keys[i] := x];
      i := i + 1;
    }
    assert keys[..i] == keys;
  }

  /** A service set again without one of its ports leaves that port's entry leading to the released one. */
  lemma DroppedPortDangles(a: Service, b: Service, ip: string, port: Port)
    requires a != b && a.name == b.name && ip in a.clusterIPs && port in a.ports
    requires port !in b.ports && WithPort(ip, port) !in b.clusterIPs
    ensures Dangles(Run(SERVICE_VIEW, OfEvent, [Set(a), Set(b)]), SERVICE_VIEW, WithPort(ip, port), a)
  {
    PortPeerIff(a, ip, port);
    PortPeerIff(b, ip, port);
    NarrowedServiceDangles(SERVICE_VIEW, a, b, WithPort(ip, port));
  }

  /** So does one of the same name in another namespace, with the old domain. */
  lemma OtherNamespaceDangles(a: Service, b: Service)
    requires a != b && a.name == b.name && a.namespaceValue != b.namespaceValue
    requires Domain(a.name, a.namespaceValue) !in b.clusterIPs
    ensures Dangles(Run(SERVICE_VIEW, OfEvent, [Set(a), Set(b)]), SERVICE_VIEW, Domain(a.name, a.namespaceValue), a)
  {
    DomainPeerIff(a, a.name, a.namespaceValue);
    DomainPeerIff(b, a.name, a.namespaceValue);
    if Domain(a.name, a.namespaceValue) == Domain(b.name, b.namespaceValue) {
      DomainInjective(a.name, a.namespaceValue, b.namespaceValue);
    }
    NarrowedServiceDangles(SERVICE_VIEW, a, b, Domain(a.name, a.namespaceValue));
  }

  /** Two services that do it: port 443 is given up. */
  method GiveUpPort() returns (c: NameControl, released: Service)
    ensures Dangles(c.Services(), SERVICE_VIEW, WithPort("10.0.0.1", 443), released)
  {
    c := new NameControl();
    released := new Service("shop", "prod", ["10.0.0.1"], [80, 443]);
    var next := new Service("shop", "prod", ["10.0.0.1"], [80]);
    SetBoth(c, released, next);
    DroppedPortDangles(released, next, "10.0.0.1", 443);
  }

  /** And two more: the same name in another namespace. */
  method MoveNamespace() returns (c: NameControl, released: Service)
    ensures Dangles(c.Services(), SERVICE_VIEW, Domain("shop", "prod"), released)
  {
    c := new NameControl();
    released := new Service("shop", "prod", ["10.0.0.1"], [80]);
    var next := new Service("shop", "test", ["10.0.0.2"], [80]);
    SetBoth(c, released, next);
    assert Domain("shop", "prod")[0] == 's';
    OtherNamespaceDangles(released, next);
  }

  method SetBoth(c: NameControl, a: Service, b: Service)
    requires c.Services() == Run(SERVICE_VIEW, OfEvent, []) && a.Valid() && b.Valid() && a != b
    modifies c, a`peers, b`peers
    ensures c.Services() == Run(SERVICE_VIEW, OfEvent, [Set(a), Set(b)])
  {
    c.SetService(a);
    c.SetService(b);
    assert [Set(a)] == [] + [Set(a)] && [Set(a), Set(b)] == [Set(a)] + [Set(b)];
    RunStep(SERVICE_VIEW, OfEvent, [], Set(a));
    RunStep(SERVICE_VIEW, OfEvent, [Set(a)], Set(b));
  }

  lemma SetLeads(ix: Index<Service>, x: Service)
    ensures var after := Next(ix, SERVICE_VIEW, OfEvent, Set(x));
            && after.stored == ix.stored[x.name := x]
            && (forall p :: p in x.AllPeers() ==> p in after.byKey && after.byKey[p] == x)
            && forall p :: p !in x.AllPeers() ==> SameAt(after.byKey, ix.byKey, p)
  {
    forall p
      ensures var after := Next(ix, SERVICE_VIEW, OfEvent, Set(x)).byKey;
              if p in x.AllPeers() then p in after && after[p] == x else SameAt(after, ix.byKey, p)
    {
      ReplaceLookup(ix, x.name, x.AllPeers(), x.AllPeers(), x, p);
    }
  }

  predicate SameAt<T(==)>(m: map<string, T>, n: map<string, T>, k: string) {
    (k in m <==> k in n) && (k in m && k in n ==> m[k] == n[k])
  }

  class NameControl {
    var services: map<string, Service>
    var endpoints: map<string, Endpoint>
    var peerToServices: map<string, Service>
    var podIpMap: map<string, Pod>
    var ipToEndpoints: map<string, Endpoint>

    function Services(): Index<Service>
      reads this
    {
      Index(services, peerToServices)
    }

    function Endpoints(): Index<Endpoint>
      reads this
    {
      Index(endpoints, ipToEndpoints)
    }

    constructor ()
      ensures Services() == Run(SERVICE_VIEW, OfEvent, []) && Endpoints() == Run(ENDPOINT_VIEW, OfStored, [])
      ensures podIpMap == map[]
    {
      services, endpoints, peerToServices, podIpMap, ipToEndpoints := map[], map[], map[], map[], map[];
    }

    method SetService(service: Service)
      requires service.Valid()
      modifies this`services, this`peerToServices, service`peers
      ensures services == old(services)[service.name := service]
      ensures forall p :: p in service.AllPeers() ==> p in peerToServices && peerToServices[p] == service
      ensures forall p :: p !in service.AllPeers() ==> SameAt(peerToServices, old(peerToServices), p)
      ensures service.Valid() && Services() == Next(old(Services()), SERVICE_VIEW, OfEvent, Set(service))
    {
      var name := service.name;
      var peers := service.ToPeer();
      if name in services {
        peerToServices := EraseKeys(peerToServices, peers);
        services := services - {name};
      }
      if peers != [] {
        peerToServices := PointKeys(peerToServices, peers, service);
        services := services[name := service];
      }
      assert services == old(services)[name := service];
      SetLeads(old(Services()), service);
    }

    method RemoveService(service: Service)
      requires service.Valid()
      modifies this`services, this`peerToServices, service`peers
      ensures services == old(services) - {service.name}
      ensures forall p :: if service.name in old(services) && p in service.AllPeers() then p !in peerToServices
                          else SameAt(peerToServices, old(peerToServices), p)
      ensures service.Valid() && Services() == Next(old(Services()), SERVICE_VIEW, OfEvent, Remove(service))
    {
      if service.name !in services {
        return;
      }
      var peers := service.ToPeer();
      peerToServices := EraseKeys(peerToServices, peers);
      services := services - {service.name};
    }

    method SetEndpoint(endpoint: Endpoint)
      modifies this`endpoints, this`ipToEndpoints
      ensures endpoints == old(endpoints)[endpoint.name := endpoint]
      ensures forall k :: k in endpoint.addresses ==> k in ipToEndpoints && ipToEndpoints[k] == endpoint
      ensures forall k :: k !in endpoint.addresses ==>
                if endpoint.name in old(endpoints) && k in old(endpoints)[endpoint.name].addresses
                then k !in ipToEndpoints else SameAt(ipToEndpoints, old(ipToEndpoints), k)
      ensures Endpoints() == Next(old(Endpoints()), ENDPOINT_VIEW, OfStored, Set(endpoint))
    {
      var name := endpoint.name;
      if name in endpoints {
        ipToEndpoints := EraseKeys(ipToEndpoints, endpoints[name].addresses);
        endpoints := endpoints - {name};
      }
      endpoints := endpoints[name := endpoint];
      assert endpoints == old(endpoints)[name := endpoint];
      ipToEndpoints := PointKeys(ipToEndpoints, endpoint.addresses, endpoint);
    }

    method RemoveEndpoint(endpoint: Endpoint)
      modifies this`endpoints, this`ipToEndpoints
      ensures endpoints == old(endpoints) - {endpoint.name}
      ensures forall k :: if endpoint.name in old(endpoints) && k in old(endpoints)[endpoint.name].addresses
                          then k !in ipToEndpoints else SameAt(ipToEndpoints, old(ipToEndpoints), k)
      ensures Endpoints() == Next(old(Endpoints()), ENDPOINT_VIEW, OfStored, Remove(endpoint))
    {
      if endpoint.name in endpoints {
        ipToEndpoints := EraseKeys(ipToEndpoints, endpoints[endpoint.name].addresses);
        endpoints := endpoints - {endpoint.name};
      }
    }

    method SetPod(pod: Pod)
      modifies this`podIpMap
      ensures podIpMap == old(podIpMap)[pod.podIp := pod]
    {
      podIpMap := podIpMap[pod.podIp := pod];
    }

    method RemovePod(pod: Pod)
      modifies this`podIpMap
      ensures podIpMap == old(podIpMap) - {pod.podIp}
    {
      if pod.podIp !in podIpMap {
        return;
      }
      podIpMap := podIpMap - {pod.podIp};
    }

    /** A service before an endpoint before a pod; in a sound index what is named is still stored and lists the
        address. */
    method FindServiceName(peer: string) returns (name: string, namespaceValue: string)
      ensures peer in peerToServices ==>
                name == peerToServices[peer].name && namespaceValue == peerToServices[peer].namespaceValue
      ensures peer in peerToServices && Sound(Services(), SERVICE_VIEW) ==>
                name in services && services[name] == peerToServices[peer] && peer in services[name].AllPeers()
      ensures peer !in peerToServices && peer in ipToEndpoints ==>
                name == ipToEndpoints[peer].name && namespaceValue == ipToEndpoints[peer].namespaceValue
      ensures peer !in peerToServices && peer in ipToEndpoints && Sound(Endpoints(), ENDPOINT_VIEW) ==>
                name in endpoints && endpoints[name] == ipToEndpoints[peer] && peer in endpoints[name].addresses
      ensures peer !in peerToServices && peer !in ipToEndpoints && peer in podIpMap ==>
                name == podIpMap[peer].name && namespaceValue == podIpMap[peer].namespaceValue
      ensures peer !in peerToServices && peer !in ipToEndpoints && peer !in podIpMap ==> name == namespaceValue == ""
    {
      if peer in peerToServices {
        var s := peerToServices[peer];
        assert Sound(Services(), SERVICE_VIEW) ==> Live(Services(), SERVICE_VIEW, s);
        return s.name, s.namespaceValue;
      }
      if peer in ipToEndpoints {
        var e := ipToEndpoints[peer];
        assert Sound(Endpoints(), ENDPOINT_VIEW) ==> Live(Endpoints(), ENDPOINT_VIEW, e);
        return e.name, e.namespaceValue;
      }
      if peer in podIpMap {
        return podIpMap[peer].name, podIpMap[peer].namespaceValue;
      }
      return "", "";
    }
  }
}
