/**
 * The network topology the sniffer builds from decoded packets: a list of
 * nodes, each with the packets it sent or received, and a directed graph of
 * who talked to whom (Node, NodeList, NodeMapper and NodeHandler).
 *
 * The registry is specified on values (`Registry`, `Visit`, `Register`);
 * the classes below update objects in place and are proved to follow that
 * specification.
 */
module Topology {
  import opened Wrappers
  import opened JString
  import opened IP6Address
  import opened PacketModel

  /** Node.LINK_LOCAL_PREFIX. */
  const LinkLocalPrefix := "fe80"
  /** The prefix registerPacket rewrites to the link-local one. */
  const SitePrefix := "aaaa"
  /** The border router's address: never turned into a node. */
  const RouterAddress := LinkLocalPrefix + "::1"

  // ------------------------------------------------------------ value view

  /** A node as a value: its raw address (without the prefix) and its packets. */
  datatype NodeView = NodeView(raw: string, packets: seq<Packet>)

  /** Node.getAddress on a node value. */
  function AddressOf(v: NodeView): string {
    LinkLocalPrefix + v.raw
  }

  /** The position of the first node whose address is `addr`, if any. */
  function Find(vs: seq<NodeView>, addr: string): (r: Option<nat>)
    ensures r.None? <==> forall i :: 0 <= i < |vs| ==> AddressOf(vs[i]) != addr
    ensures r.Some? ==> r.value < |vs| && AddressOf(vs[r.value]) == addr
    ensures r.Some? ==> forall j :: 0 <= j < r.value ==> AddressOf(vs[j]) != addr
    decreases |vs|
  {
    if vs == [] then None
    else if AddressOf(vs[0]) == addr then Some(0)
    else match Find(vs[1..], addr)
      case None => None
      case Some(k) => Some(k + 1)
  }

  /** Where a visit to `addr` puts its packet: the first node with that address, or a new last node. */
  function Slot(vs: seq<NodeView>, addr: string): nat {
    match Find(vs, addr)
    case Some(k) => k
    case None => |vs|
  }

  /** The number of packets held by all nodes together. */
  function PacketCount(vs: seq<NodeView>): nat
    decreases |vs|
  {
    if vs == [] then 0 else PacketCount(vs[..|vs| - 1]) + |vs[|vs| - 1].packets|
  }

  lemma PacketCountAppend(vs: seq<NodeView>, v: NodeView)
    ensures PacketCount(vs + [v]) == PacketCount(vs) + |v.packets|
  {
    assert (vs + [v])[..|vs|] == vs;
  }

  lemma {:induction false} PacketCountUpdate(vs: seq<NodeView>, k: nat, v: NodeView)
    requires k < |vs|
    ensures PacketCount(vs[k := v]) + |vs[k].packets| == PacketCount(vs) + |v.packets|
    decreases |vs|
  {
    var last := |vs| - 1;
    if k == last {
      assert vs[k := v][..last] == vs[..last];
    } else {
      PacketCountUpdate(vs[..last], k, v);
      assert vs[k := v][..last] == vs[..last][k := v];
    }
  }

  /** The node list and the graph together. */
  datatype Registry = Registry(nodes: seq<NodeView>, vertices: set<string>, edges: set<(string, string)>)

  /** Every node is a vertex, and every edge joins two vertices. */
  predicate WellFormed(reg: Registry) {
    && (forall i :: 0 <= i < |reg.nodes| ==> AddressOf(reg.nodes[i]) in reg.vertices)
    && (forall e :: e in reg.edges ==> e.0 in reg.vertices && e.1 in reg.vertices)
  }

  /** The leading "aaaa" rewrite applied to both addresses before lookup. */
  function Rewrite(addr: string): (r: string)
    ensures |r| == |addr|
    ensures StartsWith(addr, SitePrefix) ==> StartsWith(r, LinkLocalPrefix) && r[4..] == addr[4..]
    ensures !StartsWith(addr, SitePrefix) ==> r == addr
  {
    if StartsWith(addr, SitePrefix) then LinkLocalPrefix + addr[4..] else addr
  }

  /**
   * The address of the node a visit to `addr` ends at: the link-local
   * prefix followed by everything after the first four characters. For a
   * node found by lookup this is `addr` itself.
   */
  function NodeAddress(addr: string): string
    requires |addr| >= 4
  {
    LinkLocalPrefix + addr[4..]
  }

  /**
   * The node-list half of one side of registerPacket: add the packet to
   * the first node with address `addr`, or append `new Node(addr.substring(4))`
   * holding just that packet.
   */
  function AddToNodes(vs: seq<NodeView>, addr: string, p: Packet): (out: seq<NodeView>)
    requires |addr| >= 4
    ensures |out| == |vs| + (if Find(vs, addr).Some? then 0 else 1)
  {
    match Find(vs, addr)
    case Some(k) => vs[k := vs[k].(packets := vs[k].packets + [p])]
    case None => vs + [NodeView(addr[4..], [p])]
  }

  /**
   * AddToNodes adds the packet at the end of one node's list, the node at
   * Slot(vs, addr), whose address is NodeAddress(addr), and changes no other
   * node: one packet more in all.
   */
  lemma AddToNodesEffect(vs: seq<NodeView>, addr: string, p: Packet)
    requires |addr| >= 4
    ensures var out, k := AddToNodes(vs, addr, p), Slot(vs, addr);
      && k < |out| && AddressOf(out[k]) == NodeAddress(addr)
      && out[k].packets == (if k < |vs| then vs[k].packets else []) + [p]
      && (forall i :: 0 <= i < |vs| && i != k ==> out[i] == vs[i])
      && PacketCount(out) == PacketCount(vs) + 1
  {
    var out := AddToNodes(vs, addr, p);
    match Find(vs, addr)
    case Some(k) =>
      var v := vs[k].(packets := vs[k].packets + [p]);
      assert out == vs[k := v] && Slot(vs, addr) == k;
      assert AddressOf(vs[k]) == addr;
      assert addr[4..] == vs[k].raw;
      PacketCountUpdate(vs, k, v);
    case None =>
      var v := NodeView(addr[4..], [p]);
      assert out == vs + [v] && Slot(vs, addr) == |vs|;
      PacketCountAppend(vs, v);
  }

  /** Every node's address starts with the link-local prefix, so an address shorter than it matches none. */
  lemma ShortAddressNotFound(vs: seq<NodeView>, addr: string)
    requires |addr| < |LinkLocalPrefix|
    ensures Find(vs, addr).None?
  {
    forall i | 0 <= i < |vs|
      ensures AddressOf(vs[i]) != addr
    {
      assert |AddressOf(vs[i])| >= |LinkLocalPrefix|;
    }
  }

  /**
   * One side of registerPacket: the node list as AddToNodes leaves it, the
   * visited node's address added as a vertex, and that address. The
   * substring throws when no node matches and the address is shorter than
   * four characters.
   */
  function Visit(reg: Registry, addr: string, p: Packet): (r: Result<(Registry, string), Exception>)
    ensures r.Ok? <==> |addr| >= 4
    ensures r.Err? ==> r.error == StringIndexOutOfBounds
    ensures r.Ok? ==>
      && r.value.1 == NodeAddress(addr)
      && r.value.0.vertices == reg.vertices + {NodeAddress(addr)} && r.value.0.edges == reg.edges
  {
    // Only a new node takes the substring; a short address never matches a node (ShortAddressNotFound).
    if |addr| < 4 then Err(StringIndexOutOfBounds)
    else Ok((Registry(AddToNodes(reg.nodes, addr, p), reg.vertices + {NodeAddress(addr)}, reg.edges), NodeAddress(addr)))
  }

  /** A side whose address is the router's is skipped; any other side is visited. */
  function Side(reg: Registry, addr: string, p: Packet): (r: Result<Registry, Exception>)
    ensures addr == RouterAddress ==> r == Ok(reg)
    ensures addr != RouterAddress ==> (r.Ok? <==> Visit(reg, addr, p).Ok?)
    ensures addr != RouterAddress && r.Ok? ==> r.value == Visit(reg, addr, p).value.0
  {
    if addr == RouterAddress then Ok(reg)
    else match Visit(reg, addr, p)
      case Err(e) => Err(e)
      case Ok((out, _)) => Ok(out)
  }

  /** What registerPacket leaves behind, and the exception it threw, if any. */
  datatype Outcome = Outcome(registry: Registry, thrown: Option<Exception>)

  /** The packet is registered along the unicast branch. */
  predicate Unicast(p: Packet, src: string, dst: string) {
    !p.multicast && src != "" && dst != ""
  }

  /**
   * The unicast branch of registerPacket on the rewritten addresses: visit
   * the source, then the destination, then add the edge between their nodes
   * when neither is the router. An exception leaves the registry as it was
   * when the exception was thrown.
   */
  function UnicastOutcome(reg: Registry, p: Packet, s: string, d: string): Outcome {
    match Side(reg, s, p)
    case Err(e) => Outcome(reg, Some(e))
    case Ok(r1) =>
      match Side(r1, d, p)
      case Err(e) => Outcome(r1, Some(e))
      case Ok(r2) =>
        if s != RouterAddress && d != RouterAddress
        then Outcome(r2.(edges := r2.edges + {(NodeAddress(s), NodeAddress(d))}), None)
        else Outcome(r2, None)
  }

  /** The multicast branch of registerPacket on the rewritten source address. */
  function MulticastOutcome(reg: Registry, p: Packet, s: string): Outcome {
    match Side(reg, s, p)
    case Err(e) => Outcome(reg, Some(e))
    case Ok(r1) => Outcome(r1, None)
  }

  /**
   * NodeHandler.registerPacket on values, with `src` and `dst` the packet's
   * displayed addresses.
   */
  function Register(reg: Registry, p: Packet, src: string, dst: string): (o: Outcome)
    ensures o.thrown.Some? ==> o.thrown.value == StringIndexOutOfBounds
  {
    if Unicast(p, src, dst) then UnicastOutcome(reg, p, Rewrite(src), Rewrite(dst))
    else if p.multicast then MulticastOutcome(reg, p, Rewrite(src))
    else Outcome(reg, None)
  }

  /** The rewritten addresses of the sides registerPacket visits. */
  function EligibleSides(p: Packet, src: string, dst: string): (sides: seq<string>)
    ensures forall k :: 0 <= k < |sides| ==> sides[k] != RouterAddress
  {
    var s, d := Rewrite(src), Rewrite(dst);
    if Unicast(p, src, dst) then
      (if s != RouterAddress then [s] else []) + (if d != RouterAddress then [d] else [])
    else if p.multicast && s != RouterAddress then [s]
    else []
  }

  /** The vertices registerPacket adds: one per side it visits. */
  function SideVertices(sides: seq<string>): set<string>
    requires forall k :: 0 <= k < |sides| ==> |sides[k]| >= 4
  {
    if sides == [] then {} else {NodeAddress(sides[0])} + SideVertices(sides[1..])
  }

  /** One side adds a packet and a vertex unless it is the router's, and never an edge. */
  lemma SideEffect(reg: Registry, addr: string, p: Packet)
    requires Side(reg, addr, p).Ok?
    ensures var out := Side(reg, addr, p).value;
      && out.edges == reg.edges
      && (addr == RouterAddress ==> out == reg)
      && (addr != RouterAddress ==>
            && |addr| >= 4 && out.vertices == reg.vertices + {NodeAddress(addr)}
            && PacketCount(out.nodes) == PacketCount(reg.nodes) + 1)
  {
    if addr != RouterAddress {
      AddToNodesEffect(reg.nodes, addr, p);
    }
  }

  /**
   * A registration that throws nothing adds one packet per visited side,
   * the visited nodes' addresses as vertices, and an edge from the source
   * node to the destination node exactly when the packet is unicast and
   * neither side is the router.
   */
  lemma RegisterEffect(reg: Registry, p: Packet, src: string, dst: string)
    requires Register(reg, p, src, dst).thrown.None?
    ensures var sides := EligibleSides(p, src, dst);
      && (forall k :: 0 <= k < |sides| ==> |sides[k]| >= 4)
      && Register(reg, p, src, dst).registry.vertices == reg.vertices + SideVertices(sides)
      && PacketCount(Register(reg, p, src, dst).registry.nodes) == PacketCount(reg.nodes) + |sides|
    ensures var s, d := Rewrite(src), Rewrite(dst);
      Register(reg, p, src, dst).registry.edges ==
        if Unicast(p, src, dst) && s != RouterAddress && d != RouterAddress
        then reg.edges + {(NodeAddress(s), NodeAddress(d))}
        else reg.edges
  {
    var s, d := Rewrite(src), Rewrite(dst);
    if Unicast(p, src, dst) {
      UnicastEffect(reg, p, s, d);
    } else if p.multicast {
      SideEffect(reg, s, p);
      if s != RouterAddress {
        assert EligibleSides(p, src, dst) == [s];
      }
    }
  }

  /** RegisterEffect for the unicast branch, on the rewritten addresses. */
  lemma UnicastEffect(reg: Registry, p: Packet, s: string, d: string)
    requires UnicastOutcome(reg, p, s, d).thrown.None?
    ensures var sides := (if s != RouterAddress then [s] else []) + (if d != RouterAddress then [d] else []);
      var out := UnicastOutcome(reg, p, s, d).registry;
      && (forall k :: 0 <= k < |sides| ==> |sides[k]| >= 4)
      && out.vertices == reg.vertices + SideVertices(sides)
      && PacketCount(out.nodes) == PacketCount(reg.nodes) + |sides|
      && out.edges ==
        if s != RouterAddress && d != RouterAddress
        then reg.edges + {(NodeAddress(s), NodeAddress(d))}
        else reg.edges
  {
    SideEffect(reg, s, p);
    var r1 := Side(reg, s, p).value;
    SideEffect(r1, d, p);
    var r2 := Side(r1, d, p).value;
    var out := UnicastOutcome(reg, p, s, d).registry;
    assert out.vertices == r2.vertices && out.nodes == r2.nodes;
    SidesTally(s, d, reg, r1, r2);
  }

  /** Two sides visited one after the other add their vertices and one packet each. */
  lemma SidesTally(s: string, d: string, reg: Registry, r1: Registry, r2: Registry)
    requires s != RouterAddress ==>
      |s| >= 4 && r1.vertices == reg.vertices + {NodeAddress(s)} && PacketCount(r1.nodes) == PacketCount(reg.nodes) + 1
    requires s == RouterAddress ==> r1 == reg
    requires d != RouterAddress ==>
      |d| >= 4 && r2.vertices == r1.vertices + {NodeAddress(d)} && PacketCount(r2.nodes) == PacketCount(r1.nodes) + 1
    requires d == RouterAddress ==> r2 == r1
    ensures var sides := (if s != RouterAddress then [s] else []) + (if d != RouterAddress then [d] else []);
      && (forall k :: 0 <= k < |sides| ==> |sides[k]| >= 4)
      && r2.vertices == reg.vertices + SideVertices(sides)
      && PacketCount(r2.nodes) == PacketCount(reg.nodes) + |sides|
  {
    var sides := (if s != RouterAddress then [s] else []) + (if d != RouterAddress then [d] else []);
    if s != RouterAddress && d != RouterAddress {
      assert sides == [s, d] && sides[1..] == [d] && sides[1..][1..] == [];
      assert SideVertices(sides[1..]) == {NodeAddress(d)};
    } else if s != RouterAddress {
      assert sides == [s] && sides[1..] == [];
    } else if d != RouterAddress {
      assert sides == [d] && sides[1..] == [];
    }
  }

  /** A failed registration adds no edge: the exception is thrown before addEdge. */
  lemma RegisterFailureAddsNoEdge(reg: Registry, p: Packet, src: string, dst: string)
    requires Register(reg, p, src, dst).thrown.Some?
    ensures Register(reg, p, src, dst).registry.edges == reg.edges
    ensures |Register(reg, p, src, dst).registry.nodes| <= |reg.nodes| + 1
  {
  }

  /** A packet none of whose sides is visited leaves the registry unchanged: the router gets no node, packet or vertex. */
  lemma NothingToVisit(reg: Registry, p: Packet, src: string, dst: string)
    requires EligibleSides(p, src, dst) == []
    ensures Register(reg, p, src, dst) == Outcome(reg, None)
  {
    var s, d := Rewrite(src), Rewrite(dst);
    if Unicast(p, src, dst) {
      assert s == RouterAddress && d == RouterAddress;
    } else if p.multicast {
      assert s == RouterAddress;
    }
  }

  /** A multicast packet reaches its source only and never adds an edge. */
  lemma MulticastSourceOnly(reg: Registry, p: Packet, src: string, dst: string)
    requires p.multicast
    ensures Register(reg, p, src, dst).registry.edges == reg.edges
    ensures Register(reg, p, src, dst).thrown.None? ==>
      Register(reg, p, src, dst).registry == (if Rewrite(src) == RouterAddress then reg else Visit(reg, Rewrite(src), p).value.0)
  {
  }

  /** Registration never removes a vertex or an edge, whether or not it throws. */
  lemma RegisterGrows(reg: Registry, p: Packet, src: string, dst: string)
    ensures reg.vertices <= Register(reg, p, src, dst).registry.vertices
    ensures reg.edges <= Register(reg, p, src, dst).registry.edges
  {
    var s, d := Rewrite(src), Rewrite(dst);
    if Unicast(p, src, dst) {
      if Side(reg, s, p).Ok? {
        SideEffect(reg, s, p);
        var r1 := Side(reg, s, p).value;
        if Side(r1, d, p).Ok? {
          SideEffect(r1, d, p);
        }
      }
    } else if p.multicast && Side(reg, s, p).Ok? {
      SideEffect(reg, s, p);
    }
  }

  /** Registration keeps every node a vertex and every edge between vertices. */
  lemma RegisterKeepsWellFormed(reg: Registry, p: Packet, src: string, dst: string)
    requires WellFormed(reg)
    ensures WellFormed(Register(reg, p, src, dst).registry)
  {
    var s, d := Rewrite(src), Rewrite(dst);
    if Unicast(p, src, dst) {
      var r1 := Side(reg, s, p);
      if r1.Ok? {
        SideKeepsWellFormed(reg, s, p);
        SideKeepsWellFormed(r1.value, d, p);
      }
    } else if p.multicast {
      SideKeepsWellFormed(reg, Rewrite(src), p);
    }
  }

  lemma SideKeepsWellFormed(reg: Registry, addr: string, p: Packet)
    requires WellFormed(reg)
    ensures Side(reg, addr, p).Ok? ==> WellFormed(Side(reg, addr, p).value)
  {
    if addr != RouterAddress && |addr| >= 4 {
      var out := Visit(reg, addr, p).value.0;
      var k := Slot(reg.nodes, addr);
      AddToNodesEffect(reg.nodes, addr, p);
      forall i | 0 <= i < |out.nodes|
        ensures AddressOf(out.nodes[i]) in out.vertices
      {
        if i != k {
          assert out.nodes[i] == reg.nodes[i];
        }
      }
    }
  }

  /**
   * Node uniqueness holds for link-local addresses: once visited, the
   * address is found, and a later visit reuses that node.
   */
  lemma LinkLocalVisitedOnce(reg: Registry, addr: string, p: Packet, q: Packet)
    requires StartsWith(addr, LinkLocalPrefix)
    ensures Visit(reg, addr, p).Ok?
    ensures var out := Visit(reg, addr, p).value.0;
      && Find(out.nodes, addr).Some?
      && |Visit(out, addr, q).value.0.nodes| == |out.nodes|
  {
    var out := Visit(reg, addr, p).value.0;
    assert NodeAddress(addr) == addr;
    AddToNodesEffect(reg.nodes, addr, p);
    var k := Slot(reg.nodes, addr);
    assert AddressOf(out.nodes[k]) == addr;
  }

  /** Any other address matches no node, so every visit appends a fresh node. */
  lemma OtherAddressAlwaysNew(reg: Registry, addr: string, p: Packet)
    requires |addr| >= 4 && !StartsWith(addr, LinkLocalPrefix)
    ensures Find(reg.nodes, addr).None?
    ensures |Visit(reg, addr, p).value.0.nodes| == |reg.nodes| + 1
  {
    forall i | 0 <= i < |reg.nodes|
      ensures AddressOf(reg.nodes[i]) != addr
    {
      assert AddressOf(reg.nodes[i])[..4] == LinkLocalPrefix;
    }
  }

  /** Visiting the same link-local address twice with the same packet appends it twice to the same node. */
  lemma VisitTwiceAppendsTwice(reg: Registry, addr: string, p: Packet)
    requires StartsWith(addr, LinkLocalPrefix)
    ensures Visit(reg, addr, p).Ok? && Visit(Visit(reg, addr, p).value.0, addr, p).Ok?
    ensures var k := Slot(reg.nodes, addr);
      var twice := Visit(Visit(reg, addr, p).value.0, addr, p).value.0;
      && k < |twice.nodes|
      && twice.nodes[k].packets == (if k < |reg.nodes| then reg.nodes[k].packets else []) + [p, p]
  {
    var once := Visit(reg, addr, p).value.0;
    assert once.nodes == AddToNodes(reg.nodes, addr, p);
    var twice := Visit(once, addr, p).value.0;
    assert twice.nodes == AddToNodes(once.nodes, addr, p);
    AddTwice(reg.nodes, addr, p);
  }

  /** AddToNodes twice with the same link-local address appends the packet twice to one node. */
  lemma AddTwice(vs: seq<NodeView>, addr: string, p: Packet)
    requires StartsWith(addr, LinkLocalPrefix)
    ensures var k, twice := Slot(vs, addr), AddToNodes(AddToNodes(vs, addr, p), addr, p);
      && k < |twice|
      && twice[k].packets == (if k < |vs| then vs[k].packets else []) + [p, p]
  {
    var k := Slot(vs, addr);
    var once := AddToNodes(vs, addr, p);
    AddToNodesEffect(vs, addr, p);
    FoundAfterAdd(vs, addr, p);
    assert Slot(once, addr) == k;
    var twice := AddToNodes(once, addr, p);
    AddToNodesEffect(once, addr, p);
    var before := if k < |vs| then vs[k].packets else [];
    assert twice[k].packets == before + [p] + [p];
    assert before + [p] + [p] == before + [p, p];
  }

  /** After AddToNodes a link-local address is found, at the slot it was given. */
  lemma FoundAfterAdd(vs: seq<NodeView>, addr: string, p: Packet)
    requires StartsWith(addr, LinkLocalPrefix)
    ensures Find(AddToNodes(vs, addr, p), addr) == Some(Slot(vs, addr))
  {
    var out := AddToNodes(vs, addr, p);
    var k := Slot(vs, addr);
    assert NodeAddress(addr) == addr;
    AddToNodesEffect(vs, addr, p);
    assert forall j :: 0 <= j < k ==> AddressOf(out[j]) != addr by {
      forall j | 0 <= j < k ensures AddressOf(out[j]) != addr {
        assert out[j] == vs[j];
      }
    }
  }

  // --------------------------------------------------------------- objects

  /** Node: a fixed raw address and the growing list of its packets. */
  class Node {
    /** The address without its first four characters; final in the source. */
    const address: string
    var packets: seq<Packet>

    constructor (address: string)
      ensures this.address == address && packets == []
    {
      this.address := address;
      packets := [];
    }

    /** Node.getPrefix. */
    static function GetPrefix(): (prefix: string)
      ensures |prefix| == 4 && prefix == LinkLocalPrefix
    {
      LinkLocalPrefix
    }

    /** Node.getAddress: the prefix followed by the raw address, which can be read back from it. */
    function GetAddress(): (a: string)
      ensures StartsWith(a, GetPrefix()) && a[|GetPrefix()|..] == address
    {
      GetPrefix() + address
    }

    /** Node.getRawAddress: what getAddress puts after the prefix. */
    function GetRawAddress(): (raw: string)
      ensures GetAddress() == GetPrefix() + raw
    {
      address
    }

    /** Node.getIdentifier: the last four characters; substring throws on a shorter address. */
    function GetIdentifier(): (r: Result<string, Exception>)
      ensures r.Ok? <==> |address| >= 4
      ensures r.Ok? ==> |r.value| == 4 && address == address[..|address| - 4] + r.value
      ensures r.Err? ==> r.error == StringIndexOutOfBounds
    {
      Sub(address, |address| - 4, |address|)
    }

    /** Node.addPacket. */
    method AddPacket(p: Packet)
      modifies this
      ensures packets == old(packets) + [p]
    {
      packets := packets + [p];
    }

  }

  /** The values of a list of node objects, in order. */
  function ViewsOf(ns: seq<Node>): (vs: seq<NodeView>)
    reads ns
    ensures |vs| == |ns|
    ensures forall i :: 0 <= i < |ns| ==> vs[i] == NodeView(ns[i].address, ns[i].packets)
  {
    seq(|ns|, i reads ns requires 0 <= i < |ns| => NodeView(ns[i].address, ns[i].packets))
  }

  /** NodeList: the nodes in the order they were added. */
  class NodeList {
    var nodes: seq<Node>

    constructor ()
      ensures nodes == []
    {
      nodes := [];
    }

    /** NodeList.contains: some node has the address. */
    predicate Contains(addr: string)
      reads this
    {
      exists i :: 0 <= i < |nodes| && nodes[i].GetAddress() == addr
    }

    function Views(): seq<NodeView>
      reads this, nodes
    {
      ViewsOf(nodes)
    }

    /** contains agrees with the lookup on values. */
    lemma ContainsIsFind(addr: string)
      ensures Contains(addr) <==> Find(Views(), addr).Some?
    {
      if Contains(addr) {
        var i :| 0 <= i < |nodes| && nodes[i].GetAddress() == addr;
        assert AddressOf(Views()[i]) == addr;
      }
    }

    /** NodeList.get: the first node with the address, or null when there is none. */
    method Get(addr: string) returns (n: Node?)
      ensures n == null <==> !Contains(addr)
      ensures n != null ==> Find(Views(), addr).Some? && n == nodes[Find(Views(), addr).value]
    {
      var i := 0;
      while i < |nodes|
        invariant 0 <= i <= |nodes|
        invariant forall j :: 0 <= j < i ==> nodes[j].GetAddress() != addr
      {
        if nodes[i].GetAddress() == addr {
          assert AddressOf(Views()[i]) == addr;
          assert forall j :: 0 <= j < i ==> AddressOf(Views()[j]) != addr;
          assert Find(Views(), addr) == Some(i);
          return nodes[i];
        }
        i := i + 1;
      }
      return null;
    }

    /** ArrayList.add, inherited. */
    method Add(n: Node)
      modifies this
      ensures nodes == old(nodes) + [n]
    {
      nodes := nodes + [n];
    }
  }

  /**
   * NodeMapper's graph: a set of vertices and a set of directed edges, each
   * added only when absent. Layout and drawing are not part of this model.
   */
  class NodeMapper {
    var vertices: set<string>
    var edges: set<(string, string)>

    /** A graph never holds an edge to an unknown vertex. */
    predicate Valid()
      reads this
    {
      forall e :: e in edges ==> e.0 in vertices && e.1 in vertices
    }

    constructor ()
      ensures Valid() && vertices == {} && edges == {}
    {
      vertices := {};
      edges := {};
    }

    /** NodeMapper.addVertex. */
    method AddVertex(addr: string)
      requires Valid()
      modifies this
      ensures Valid()
      ensures vertices == old(vertices) + {addr} && edges == old(edges)
    {
      if addr !in vertices {
        vertices := vertices + {addr};
      }
    }

    /** NodeMapper.addEdge; the graph library demands that both ends are vertices. */
    method AddEdge(src: string, dst: string)
      requires Valid() && src in vertices && dst in vertices
      modifies this
      ensures Valid()
      ensures edges == old(edges) + {(src, dst)} && vertices == old(vertices)
    {
      if (src, dst) !in edges {
        edges := edges + {(src, dst)};
      }
    }
  }

  /** NodeHandler: the node list and the graph view it keeps in step. */
  class NodeHandler {
    const nodes: NodeList
    const mapper: NodeMapper

    /** Each node object appears once in the list. */
    predicate Distinct()
      reads this, nodes
    {
      forall i, j :: 0 <= i < j < |nodes.nodes| ==> nodes.nodes[i] != nodes.nodes[j]
    }

    /** Each node object appears once, and every node is a vertex of a valid graph. */
    predicate Valid()
      reads this, nodes, mapper
    {
      && mapper.Valid()
      && Distinct()
      && (forall i :: 0 <= i < |nodes.nodes| ==> nodes.nodes[i].GetAddress() in mapper.vertices)
    }

    /** The handler's state as a value. */
    function State(): Registry
      reads this, nodes, nodes.nodes, mapper
    {
      Registry(nodes.Views(), mapper.vertices, mapper.edges)
    }

    constructor (mapper: NodeMapper)
      requires mapper.Valid()
      ensures Valid() && fresh(nodes) && this.mapper == mapper && nodes.nodes == []
    {
      nodes := new NodeList();
      this.mapper := mapper;
    }

    /** The node-list half of the block registerPacket repeats for each side. */
    method AttachPacket(addr: string, p: Packet) returns (r: Result<Node, Exception>)
      requires Distinct()
      modifies nodes, nodes.nodes
      ensures Distinct()
      ensures r.Err? ==>
        && Find(old(nodes.Views()), addr).None? && |addr| < 4
        && r.error == StringIndexOutOfBounds && nodes.nodes == old(nodes.nodes)
        && nodes.Views() == old(nodes.Views())
      ensures r.Ok? ==>
        && |addr| >= 4
        && nodes.Views() == AddToNodes(old(nodes.Views()), addr, p)
        && r.value.GetAddress() == NodeAddress(addr)
      ensures forall n :: n in nodes.nodes ==> n in old(nodes.nodes) || fresh(n)
    {
      ghost var before := nodes.Views();
      nodes.ContainsIsFind(addr);
      if nodes.Contains(addr) {
        var n := nodes.Get(addr);
        ghost var k := Find(before, addr).value;
        assert before[k] == NodeView(n.address, n.packets);
        AppendToNode(n, p, k);
        assert nodes.Views() == AddToNodes(before, addr, p);
        r := Ok(n);
      } else {
        if |addr| < 4 {
          return Err(StringIndexOutOfBounds);
        }
        var n := new Node(addr[4..]);
        AppendNode(n, p);
        assert nodes.Views() == AddToNodes(before, addr, p);
        r := Ok(n);
      }
    }

    /** n.addPacket(p) on the node at position `k` of the list: that node alone changes. */
    method AppendToNode(n: Node, p: Packet, ghost k: nat)
      requires Distinct() && k < |nodes.nodes| && nodes.nodes[k] == n
      modifies n
      ensures nodes.Views() == old(nodes.Views())[k := NodeView(n.address, old(n.packets) + [p])]
    {
      n.AddPacket(p);
      assert forall i :: 0 <= i < |nodes.nodes| && i != k ==>
        nodes.nodes[i].packets == old(nodes.nodes[i].packets);
    }

    /** nodes.add(n) followed by n.addPacket(p) for a node not yet in the list. */
    method AppendNode(n: Node, p: Packet)
      requires Distinct() && n !in nodes.nodes && n.packets == []
      modifies nodes, n
      ensures Distinct() && nodes.nodes == old(nodes.nodes) + [n]
      ensures nodes.Views() == old(nodes.Views()) + [NodeView(n.address, [p])]
    {
      nodes.Add(n);
      n.AddPacket(p);
      assert forall i :: 0 <= i < |nodes.nodes| - 1 ==> nodes.nodes[i].packets == old(nodes.nodes[i].packets);
      assert forall i :: 0 <= i < |nodes.nodes| ==>
        nodes.Views()[i] == (old(nodes.Views()) + [NodeView(n.address, [p])])[i];
    }

    /** The block registerPacket repeats for each side it visits. */
    method VisitNode(addr: string, p: Packet) returns (r: Result<string, Exception>)
      requires Valid()
      modifies nodes, nodes.nodes, mapper
      ensures Valid()
      ensures r.Err? ==> State() == old(State()) && Visit(old(State()), addr, p) == Err(r.error)
      ensures r.Ok? ==> Visit(old(State()), addr, p) == Ok((State(), r.value))
      ensures forall n :: n in nodes.nodes ==> n in old(nodes.nodes) || fresh(n)
    {
      ghost var before := State();
      var a := AttachPacket(addr, p);
      if a.Err? {
        return Err(a.error);
      }
      ghost var views := nodes.Views();
      label Attached:
      mapper.AddVertex(a.value.GetAddress());
      assert forall i :: 0 <= i < |nodes.nodes| ==> nodes.nodes[i].packets == old@Attached(nodes.nodes[i].packets);
      assert nodes.Views() == views;
      r := Ok(a.value.GetAddress());
      assert State() == Registry(views, before.vertices + {r.value}, before.edges);
    }

    /** addEdge between two nodes already in the graph. */
    method Connect(src: string, dst: string)
      requires Valid() && src in mapper.vertices && dst in mapper.vertices
      modifies mapper
      ensures Valid()
      ensures State() == old(State()).(edges := old(State()).edges + {(src, dst)})
    {
      ghost var views := nodes.Views();
      label Before:
      mapper.AddEdge(src, dst);
      assert forall i :: 0 <= i < |nodes.nodes| ==> nodes.nodes[i].packets == old@Before(nodes.nodes[i].packets);
      assert nodes.Views() == views;
    }

    /** The unicast branch of registerPacket, on the rewritten addresses. */
    method RegisterUnicast(psrc: string, pdst: string, p: Packet) returns (thrown: Option<Exception>)
      requires Valid()
      modifies nodes, nodes.nodes, mapper
      ensures Valid()
      ensures Outcome(State(), thrown) == UnicastOutcome(old(State()), p, psrc, pdst)
      ensures forall i :: 0 <= i < |nodes.nodes| ==> nodes.nodes[i] in old(nodes.nodes) || fresh(nodes.nodes[i])
    {
      ghost var s0 := State();
      var srcNode, dstNode := "", "";
      if psrc != RouterAddress {
        var r := VisitNode(psrc, p);
        if r.Err? {
          return Some(r.error);
        }
        srcNode := r.value;
      }
      ghost var s1 := State();
      assert Side(s0, psrc, p) == Ok(s1);
      assert forall i :: 0 <= i < |nodes.nodes| ==> nodes.nodes[i] in old(nodes.nodes) || fresh(nodes.nodes[i]);
      if pdst != RouterAddress {
        var r := VisitNode(pdst, p);
        if r.Err? {
          return Some(r.error);
        }
        dstNode := r.value;
      }
      ghost var s2 := State();
      assert Side(s1, pdst, p) == Ok(s2);
      if pdst != RouterAddress && psrc != RouterAddress {
        Connect(srcNode, dstNode);
      }
      thrown := None;
    }

    /** The multicast branch of registerPacket, on the rewritten source address. */
    method RegisterMulticast(psrc: string, p: Packet) returns (thrown: Option<Exception>)
      requires Valid()
      modifies nodes, nodes.nodes, mapper
      ensures Valid()
      ensures Outcome(State(), thrown) == MulticastOutcome(old(State()), p, psrc)
      ensures forall i :: 0 <= i < |nodes.nodes| ==> nodes.nodes[i] in old(nodes.nodes) || fresh(nodes.nodes[i])
    {
      thrown := None;
      if psrc != RouterAddress {
        var r := VisitNode(psrc, p);
        if r.Err? {
          thrown := Some(r.error);
        }
      }
    }

    /** NodeHandler.registerPacket; `resolve` is the address formatting behind Packet.src and Packet.dst. */
    method RegisterPacket(p: Packet, resolve: Resolver) returns (thrown: Option<Exception>)
      requires Valid()
      modifies nodes, nodes.nodes, mapper
      ensures Valid()
      ensures Outcome(State(), thrown) == Register(old(State()), p, Src(p, resolve), Dst(p, resolve))
      ensures forall i :: 0 <= i < |nodes.nodes| ==> nodes.nodes[i] in old(nodes.nodes) || fresh(nodes.nodes[i])
    {
      thrown := None;
      var src, dst := Src(p, resolve), Dst(p, resolve);
      if !p.multicast && src != "" && dst != "" {
        thrown := RegisterUnicast(Rewrite(src), Rewrite(dst), p);
      } else if p.multicast {
        thrown := RegisterMulticast(Rewrite(src), p);
      }
    }
  }
}
