/** Discovering what lies behind the ports of a controller, bottom-up: how the tree of devices comes about, that
    every cache in it is right when it does, and where arrays and volumes climb to afterwards. */
module Discovery {
  import opened Wrappers
  import opened Trees
  import opened Topology

  type DeviceItem = Item<RoutingDevice, EndDevice>

  /** What the directory of a port shows behind the port; an expander shows ports in turn. */
  datatype Find = Nothing | Disk | Expander(ports: seq<Find>)

  /** The devices are, in order, what the ports show. */
  ghost predicate FoundBelow(ends: seq<EndDevice>, kids: seq<DeviceTree>, ports: seq<Find>)
    decreases ports
  {
    if ports == [] then ends == [] && kids == []
    else
      var before := ports[..|ports| - 1];
      match ports[|ports| - 1]
      case Nothing => FoundBelow(ends, kids, before)
      case Disk => ends != [] && FoundBelow(ends[..|ends| - 1], kids, before)
      case Expander(below) =>
        && kids != []
        && FoundBelow(kids[|kids| - 1].ends, kids[|kids| - 1].kids, below)
        && FoundBelow(ends, kids[..|kids| - 1], before)
  }

  // ---- the climb against the caches ----

  /** The remote port is connected to a plain port of the device above. */
  ghost predicate Uplinked(w: World, p: Port, up: Parent)
    reads w.rank.Keys
  {
    && p in w.rank && p.isRemote && p.m_pRemotePort != null && p.m_pRemotePort in w.rank
    && !p.m_pRemotePort.isRemote && p.m_pRemotePort.m_pParent == up
  }

  ghost predicate EndsJoined(w: World, ends: seq<EndDevice>, up: Parent)
    reads w.rank.Keys, set e | e in ends
  {
    forall e :: e in ends ==> Uplinked(w, e.m_pPort, up)
  }

  /** Every device of the tree is connected to the one above it, the root to `up`. */
  ghost predicate Joined(w: World, t: DeviceTree, up: Parent)
    reads w.rank.Keys, Nodes(t), set e | e in AllEnds(t)
    decreases t, 0
  {
    && Uplinked(w, t.device.m_pSubtractivePort, up)
    && EndsJoined(w, t.ends, OfRoutingDevice(t.device))
    && ForestJoined(w, t.kids, OfRoutingDevice(t.device))
  }

  ghost predicate ForestJoined(w: World, ts: seq<DeviceTree>, up: Parent)
    reads w.rank.Keys, ForestNodes(ts), set e | e in ForestEnds(ts)
    decreases ts
  {
    ts == [] || (Joined(w, ts[0], up) && ForestJoined(w, ts[1..], up))
  }

  /** The climb from `up` ends at the controller. */
  ghost predicate Tops(w: World, up: Parent, c: Controller)
    requires Ranked(w)
    reads w.rank.Keys, w.devices, if up.OfRoutingDevice? then {up.device} else {}
  {
    match up
    case OfController(d) => d == c
    case OfRoutingDevice(r) => r.m_pSubtractivePort in w.rank && Root(w, r.m_pSubtractivePort) == Some(c)
    case _ => false
  }

  lemma UplinkClimbs(w: World, p: Port, up: Parent, c: Controller)
    requires Ranked(w) && Uplinked(w, p, up) && Tops(w, up, c)
    ensures Root(w, p) == Some(c)
  {
    assert Root(w, p) == Root(w, p.m_pRemotePort);
  }

  /** From any disk of a joined forest, through any depth, the climb ends at the controller on top. */
  lemma {:induction false} ForestClimbs(w: World, ts: seq<DeviceTree>, up: Parent, c: Controller)
    requires Ranked(w) && ForestJoined(w, ts, up) && Tops(w, up, c)
    ensures forall e :: e in ForestEnds(ts) ==> e.m_pPort in w.rank && Root(w, e.m_pPort) == Some(c)
    decreases ts
  {
    hide Ranked, Root;
    if ts == [] {
    } else {
      var t := ts[0];
      UplinkClimbs(w, t.device.m_pSubtractivePort, up, c);
      EndsClimb(w, t.ends, OfRoutingDevice(t.device), c);
      ForestClimbs(w, t.kids, OfRoutingDevice(t.device), c);
      ForestClimbs(w, ts[1..], up, c);
    }
  }

  lemma EndsClimb(w: World, ends: seq<EndDevice>, up: Parent, c: Controller)
    requires Ranked(w) && EndsJoined(w, ends, up) && Tops(w, up, c)
    ensures forall e :: e in ends ==> e.m_pPort in w.rank && Root(w, e.m_pPort) == Some(c)
  {
    forall e | e in ends ensures e.m_pPort in w.rank && Root(w, e.m_pPort) == Some(c) {
      UplinkClimbs(w, e.m_pPort, up, c);
    }
  }

  /** One end device for every port that shows a disk, and one subtree for every port that shows an expander. */
  lemma {:induction false} FoundCounts(ends: seq<EndDevice>, kids: seq<DeviceTree>, ports: seq<Find>)
    requires FoundBelow(ends, kids, ports)
    ensures |ends| == |set i | 0 <= i < |ports| && ports[i] == Disk|
    ensures |kids| == |set i | 0 <= i < |ports| && ports[i].Expander?|
  {
    if ports == [] {
    } else {
      var n := |ports| - 1;
      var before := ports[..n];
      CountNext(ports, n);
      match ports[n]
      case Nothing => FoundCounts(ends, kids, before);
      case Disk => FoundCounts(ends[..|ends| - 1], kids, before);
      case Expander(_) => FoundCounts(ends, kids[..|kids| - 1], before);
    }
  }

  lemma CountNext(ports: seq<Find>, n: nat)
    requires |ports| == n + 1
    ensures (set i | 0 <= i < |ports| && ports[i] == Disk) ==
            (set i | 0 <= i < |ports[..n]| && ports[..n][i] == Disk) + (if ports[n] == Disk then {n} else {})
    ensures (set i | 0 <= i < |ports| && ports[i].Expander?) ==
            (set i | 0 <= i < |ports[..n]| && ports[..n][i].Expander?) + (if ports[n].Expander? then {n} else {})
  {
    assert forall i :: 0 <= i < n ==> ports[..n][i] == ports[i];
  }

  // ---- nothing is found twice ----

  ghost predicate Once<T>(m: multiset<T>) {
    forall x :: x in m ==> m[x] == 1
  }

  ghost predicate EachOnce(ends: seq<EndDevice>, kids: seq<DeviceTree>) {
    Once(multiset(ends) + multiset(ForestEnds(kids))) && Once(multiset(ForestPreorder(kids)))
  }

  ghost predicate TreeOnce(t: DeviceTree) {
    Once(multiset(AllEnds(t))) && Once(multiset(Preorder(t)))
  }

  lemma {:induction false} PreorderInNodes(ts: seq<DeviceTree>)
    ensures forall d :: d in ForestPreorder(ts) ==> d in ForestNodes(ts)
    decreases ts
  {
    if ts == [] {
    } else {
      TreePreorderInNodes(ts[0]);
      PreorderInNodes(ts[1..]);
    }
  }

  lemma TreePreorderInNodes(t: DeviceTree)
    ensures forall d :: d in Preorder(t) ==> d in Nodes(t)
    decreases t, 0
  {
    PreorderInNodes(t.kids);
  }

  lemma OnceUnion<T>(a: multiset<T>, b: multiset<T>)
    requires Once(a) && Once(b) && forall x :: x in b ==> x !in a
    ensures Once(a + b)
  {
  }

  /** A root above trees without repetitions repeats nothing either. */
  lemma RootedOnce(t: DeviceTree)
    requires EachOnce(t.ends, t.kids) && t.device !in ForestNodes(t.kids)
    ensures TreeOnce(t)
  {
    hide ForestEnds, ForestPreorder, ForestNodes;
    PreorderInNodes(t.kids);
    OnceUnion(multiset(ForestPreorder(t.kids)), multiset{t.device});
    assert multiset(Preorder(t)) == multiset(ForestPreorder(t.kids)) + multiset{t.device};
    assert multiset(AllEnds(t)) == multiset(t.ends) + multiset(ForestEnds(t.kids));
  }

  /** Items made of new devices repeat nothing. */
  lemma ItemOnce(ends: seq<EndDevice>, kids: seq<DeviceTree>, item: DeviceItem)
    requires EachOnce(ends, kids) && (item.Branch? ==> TreeOnce(item.t))
    requires forall e :: e in ItemEnds(Some(item)) ==> e !in ends && e !in ForestEnds(kids)
    requires ItemNodes(Some(item)) !! ForestNodes(kids)
    ensures EachOnce(EndsWith(ends, item), KidsWith(kids, item))
  {
    hide ForestEnds, ForestPreorder, ForestNodes, AllEnds, Preorder, Nodes;
    var before := multiset(ends) + multiset(ForestEnds(kids));
    if item.Branch? {
      EndsAppend(kids, item.t);
      PreorderAppend(kids, item.t);
      PreorderInNodes(kids);
      TreePreorderInNodes(item.t);
      forall e | e in multiset(AllEnds(item.t)) ensures e !in before {
        assert e in ItemEnds(Some(item));
      }
      forall d | d in multiset(Preorder(item.t)) ensures d !in ForestPreorder(kids) {
        assert d in ItemNodes(Some(item));
      }
      OnceUnion(before, multiset(AllEnds(item.t)));
      OnceUnion(multiset(ForestPreorder(kids)), multiset(Preorder(item.t)));
      assert multiset(ends) + multiset(ForestEnds(kids) + AllEnds(item.t)) == before + multiset(AllEnds(item.t));
    } else {
      assert item.e in ItemEnds(Some(item));
      OnceUnion(before, multiset{item.e});
      assert multiset(ends + [item.e]) + multiset(ForestEnds(kids)) == before + multiset{item.e};
    }
  }

  // ---- how joined devices stay joined ----

  /** What a port is joined to: its owner, and the link of a remote port. */
  datatype Joint = Joint(owner: Parent, link: Port?)

  ghost function JointOf(p: Port): Joint
    reads p
  {
    Joint(p.m_pParent, if p.isRemote then p.m_pRemotePort else null)
  }

  /** A port keeps its owner, and a remote port the link it has. */
  twostate predicate PortKept(p: Port)
    reads p
  {
    JointOf(p) == old(JointOf(p)) || old(JointOf(p)) == Joint(p.m_pParent, null)
  }

  twostate lemma UplinkKept(new w: World, new v: World, p: Port, new up: Parent)
    requires old(allocated(w))
    requires old(allocated(up))
    requires (forall p :: p in w.rank ==> PortKept(p)) && w.rank.Keys <= v.rank.Keys
    requires old(Uplinked(w, p, up))
    ensures Uplinked(v, p, up)
  {
  }

  twostate lemma EndsJoinedKept(new w: World, new v: World, ends: seq<EndDevice>, new up: Parent)
    requires old(allocated(w))
    requires old(allocated(up))
    requires (forall p :: p in w.rank ==> PortKept(p)) && w.rank.Keys <= v.rank.Keys
    requires forall e :: e in ends ==> old(allocated(e)) && e.m_pPort == old(e.m_pPort)
    requires old(EndsJoined(w, ends, up))
    ensures EndsJoined(v, ends, up)
  {
    hide Uplinked;
    forall e | e in ends ensures Uplinked(v, e.m_pPort, up) {
      UplinkKept(w, v, old(e.m_pPort), up);
    }
  }

  twostate lemma {:induction false} JoinedKept(new w: World, new v: World, t: DeviceTree, new up: Parent)
    requires old(allocated(w))
    requires old(allocated(up))
    requires (forall p :: p in w.rank ==> PortKept(p)) && w.rank.Keys <= v.rank.Keys
    requires forall d :: d in Nodes(t) ==>
               old(allocated(d)) && d.m_pSubtractivePort == old(d.m_pSubtractivePort)
    requires forall e :: e in AllEnds(t) ==> old(allocated(e)) && e.m_pPort == old(e.m_pPort)
    requires old(Joined(w, t, up))
    ensures Joined(v, t, up)
    decreases t, 0
  {
    hide PortKept, Uplinked;
    assert ForestNodes(t.kids) <= Nodes(t) && t.device in Nodes(t);
    assert forall e :: e in ForestEnds(t.kids) ==> e in AllEnds(t);
    assert forall e :: e in t.ends ==> e in AllEnds(t);
    UplinkKept(w, v, old(t.device.m_pSubtractivePort), up);
    EndsJoinedKept(w, v, t.ends, OfRoutingDevice(t.device));
    ForestJoinedKept(w, v, t.kids, OfRoutingDevice(t.device));
  }

  twostate lemma {:induction false} ForestJoinedKept(new w: World, new v: World, ts: seq<DeviceTree>, new up: Parent)
    requires old(allocated(w))
    requires old(allocated(up))
    requires (forall p :: p in w.rank ==> PortKept(p)) && w.rank.Keys <= v.rank.Keys
    requires forall d :: d in ForestNodes(ts) ==>
               old(allocated(d)) && d.m_pSubtractivePort == old(d.m_pSubtractivePort)
    requires forall e :: e in ForestEnds(ts) ==> old(allocated(e)) && e.m_pPort == old(e.m_pPort)
    requires old(ForestJoined(w, ts, up))
    ensures ForestJoined(v, ts, up)
    decreases ts
  {
    hide PortKept, Joined, Nodes, AllEnds;
    if ts == [] {
    } else {
      assert Nodes(ts[0]) <= ForestNodes(ts) && ForestNodes(ts[1..]) <= ForestNodes(ts);
      assert forall e :: e in AllEnds(ts[0]) ==> e in ForestEnds(ts);
      assert forall e :: e in ForestEnds(ts[1..]) ==> e in ForestEnds(ts);
      JoinedKept(w, v, ts[0], up);
      ForestJoinedKept(w, v, ts[1..], up);
    }
  }

  lemma {:induction false} ForestJoinedAppend(w: World, ts: seq<DeviceTree>, t: DeviceTree, up: Parent)
    requires ForestJoined(w, ts, up) && Joined(w, t, up)
    ensures ForestJoined(w, ts + [t], up)
  {
    if ts == [] {
      assert ForestJoined(w, [t][1..], up);
    } else {
      assert (ts + [t])[1..] == ts[1..] + [t];
      ForestJoinedAppend(w, ts[1..], t, up);
    }
  }

  /** Two ranked worlds without common ports are one ranked world. */
  lemma RankedUnion(w: World, v: World)
    requires Ranked(w) && Ranked(v) && w.rank.Keys !! v.rank.Keys
    ensures Ranked(World(w.rank + v.rank, w.devices + v.devices))
  {
  }

  // ---- discovery ----

  ghost function Owner(up: Parent): set<object> {
    match up
    case OfController(c) => {c}
    case OfRoutingDevice(r) => {r}
    case _ => {}
  }

  ghost predicate Owning(up: Parent) {
    up.OfController? || up.OfRoutingDevice?
  }

  /** The climb from the owner goes on in the world, below the given depth. */
  ghost predicate Grounded(w: World, up: Parent, depth: nat)
    reads Owner(up)
  {
    up.OfRoutingDevice? ==>
      && up.device in w.devices && up.device.m_pSubtractivePort in w.rank
      && w.rank[up.device.m_pSubtractivePort] < depth
  }

  ghost function ListsAt(up: Parent): DeviceLists
    requires Owning(up)
    reads Owner(up)
  {
    if up.OfController? then up.controller.lists else up.device.lists
  }

  /** Nothing of the owner but its device lists has changed. */
  twostate predicate OnlyLists(up: Parent)
    reads Owner(up)
  {
    match up
    case OfController(c) => old(allocated(c)) && c.m_Arrays == old(c.m_Arrays) && c.m_Volumes == old(c.m_Volumes)
    case OfRoutingDevice(r) => old(allocated(r)) && r.m_pSubtractivePort == old(r.m_pSubtractivePort)
    case _ => true
  }

  /** The later world has the ports of the earlier one, with their ranks, and some new ones. */
  ghost predicate Extends(w: World, v: World) {
    w.devices <= v.devices && w.rank.Keys <= v.rank.Keys && forall p :: p in w.rank ==> v.rank[p] == w.rank[p]
  }

  lemma ExtendsTwice(u: World, v: World, w: World)
    requires Extends(u, v) && Extends(v, w)
    ensures Extends(u, w) && u.rank.Keys <= w.rank.Keys && v.rank.Keys <= w.rank.Keys
  {
  }

  ghost function ItemNodes(item: Option<DeviceItem>): set<RoutingDevice> {
    if item.Some? && item.value.Branch? then Nodes(item.value.t) else {}
  }

  ghost function ItemEnds(item: Option<DeviceItem>): seq<EndDevice> {
    match item
    case None => []
    case Some(Leaf(e)) => [e]
    case Some(Branch(t)) => AllEnds(t)
  }

  /** `ISCI_Port::discover`, with what the directory shows as an argument. What is found is discovered
      completely before it is attached. */
  method DiscoverPort(port: Port, found: Find, ghost w: World)
    returns (ghost v: World, ghost item: Option<DeviceItem>)
    requires Ranked(w) && port in w.rank && !port.isRemote && Owning(port.m_pParent)
    modifies port`m_pRemotePort, Owner(port.m_pParent)
    ensures OnlyLists(port.m_pParent)
    ensures Ranked(v) && Extends(w, v)
    ensures forall p :: p in v.rank && p !in w.rank ==> fresh(p)
    ensures forall d :: d in ItemNodes(item) ==> fresh(d)
    ensures forall e :: e in ItemEnds(item) ==> fresh(e)
    ensures item == None <==> found.Nothing?
    ensures ListsAt(port.m_pParent) == if item.None? then old(ListsAt(port.m_pParent))
                                       else Received(old(ListsAt(port.m_pParent)), item.value)
    ensures found.Disk? ==> item.value.Leaf? && Uplinked(v, item.value.e.m_pPort, port.m_pParent)
    ensures found.Expander? ==>
              && item.value.Branch? && FoundBelow(item.value.t.ends, item.value.t.kids, found.ports)
              && Cached(item.value.t) && Joined(v, item.value.t, port.m_pParent) && TreeOnce(item.value.t)
    decreases found, 0
  {
    hide Cached, Joined, Nodes, AllEnds, FoundBelow, Ranked, Uplinked, TreeOnce;
    v, item := w, None;
    if found.Expander? {
      ghost var t;
      v, t := DiscoverBehind(port, found.ports, w);
      item := Some(Branch(t));
    } else if found.Disk? {
      ghost var e;
      v, e := DiscoverDisk(port, w);
      item := Some(Leaf(e));
    }
  }

  /** An end device behind the port, with a remote port of its own. */
  method DiscoverDisk(port: Port, ghost w: World) returns (ghost v: World, ghost e: EndDevice)
    requires Ranked(w) && port in w.rank && !port.isRemote && Owning(port.m_pParent)
    modifies port`m_pRemotePort, Owner(port.m_pParent)
    ensures OnlyLists(port.m_pParent)
    ensures Ranked(v) && Extends(w, v)
    ensures forall p :: p in v.rank && p !in w.rank ==> fresh(p)
    ensures fresh(e) && Uplinked(v, e.m_pPort, port.m_pParent)
    ensures ListsAt(port.m_pParent) == Received(old(ListsAt(port.m_pParent)), Leaf(e))
  {
    var remote := new Port(true, NoParent);
    var disk := new EndDevice(remote);
    remote.m_pParent := OfEndDevice(disk);
    v := World(w.rank[remote := w.rank[port] + 1], w.devices);
    e := disk;
    var ok := port.AttachPort(remote, v);
  }

  /** An expander behind the port: it is created, discovered, and only then attached. */
  method DiscoverBehind(port: Port, ports: seq<Find>, ghost w: World) returns (ghost v: World, ghost t: DeviceTree)
    requires Ranked(w) && port in w.rank && !port.isRemote && Owning(port.m_pParent)
    modifies port`m_pRemotePort, Owner(port.m_pParent)
    ensures OnlyLists(port.m_pParent)
    ensures Ranked(v) && Extends(w, v)
    ensures forall p :: p in v.rank && p !in w.rank ==> fresh(p)
    ensures forall d :: d in Nodes(t) ==> fresh(d)
    ensures forall e :: e in AllEnds(t) ==> fresh(e)
    ensures ListsAt(port.m_pParent) == Received(old(ListsAt(port.m_pParent)), Branch(t))
    ensures FoundBelow(t.ends, t.kids, ports) && Cached(t) && Joined(v, t, port.m_pParent) && TreeOnce(t)
    decreases ports, 3
  {
    hide Cached, ForestCached, Nodes, ForestNodes, AllEnds, ForestEnds, FoundBelow, EndsJoined, ForestJoined, Ranked;
    hide TreeOnce;
    var remote := new Port(true, NoParent);
    var r := new RoutingDevice(remote);
    remote.m_pParent := OfRoutingDevice(r);
    ghost var below;
    below, t := DiscoverExpander(r, ports, w.rank[port] + 1);
    v := World(w.rank + below.rank, w.devices + below.devices);
    RankedUnion(w, below);
    AttachExpander(port, remote, below, v, t);
  }

  method AttachExpander(port: Port, remote: Port, ghost below: World, ghost v: World, ghost t: DeviceTree)
    requires Ranked(v) && port in v.rank && remote in v.rank && v.rank[port] < v.rank[remote]
    requires below.rank.Keys <= v.rank.Keys && !port.isRemote && Owning(port.m_pParent)
    requires remote.isRemote && remote.m_pParent == OfRoutingDevice(t.device) && remote.m_pRemotePort == null
    requires t.device.m_pSubtractivePort == remote && Cached(t)
    requires EndsJoined(below, t.ends, OfRoutingDevice(t.device))
    requires ForestJoined(below, t.kids, OfRoutingDevice(t.device))
    requires forall d :: d in Nodes(t) ==> port.m_pParent != OfRoutingDevice(d)
    modifies port`m_pRemotePort, remote`m_pRemotePort, Owner(port.m_pParent)
    ensures OnlyLists(port.m_pParent)
    ensures Ranked(v)
    ensures ListsAt(port.m_pParent) == Received(old(ListsAt(port.m_pParent)), Branch(t))
    ensures Cached(t) && Joined(v, t, port.m_pParent)
  {
    TreeAllocated(t);
    assert t.device.lists == ListsOf(t.ends, t.kids);
    hide Cached, ForestCached, Nodes, ForestNodes, AllEnds, ForestEnds, EndsJoined, ForestJoined, Joined, Ranked;
    hide ListsOf, Uplinked;
    LinkUp(port, remote, t.device, v);
    TreeJoins(below, v, t, port.m_pParent);
  }

  /** The link of a device to the port above it, and what that port's owner then lists. */
  method LinkUp(port: Port, remote: Port, ghost r: RoutingDevice, ghost v: World)
    requires Ranked(v) && port in v.rank && remote in v.rank && v.rank[port] < v.rank[remote]
    requires !port.isRemote && Owning(port.m_pParent) && port.m_pParent != OfRoutingDevice(r)
    requires remote.isRemote && remote.m_pParent == OfRoutingDevice(r)
    modifies port`m_pRemotePort, remote`m_pRemotePort, Owner(port.m_pParent)
    ensures OnlyLists(port.m_pParent) && Ranked(v) && Uplinked(v, remote, port.m_pParent)
    ensures ListsAt(port.m_pParent) == old(ListsAt(port.m_pParent).WithRoutingDevice(r, r.lists))
  {
    hide Ranked;
    var ok := port.AttachPort(remote, v);
  }

  /** A discovered tree stays as it is when its root gets its link. */
  twostate lemma TreeJoins(new below: World, new v: World, t: DeviceTree, new up: Parent)
    requires old(allocated(below))
    requires old(Cached(t))
    requires old(EndsJoined(below, t.ends, OfRoutingDevice(t.device)))
    requires old(ForestJoined(below, t.kids, OfRoutingDevice(t.device)))
    requires (forall p :: p in below.rank ==> PortKept(p)) && below.rank.Keys <= v.rank.Keys
    requires forall d :: d in Nodes(t) ==> old(allocated(d)) && d.lists == old(d.lists)
    requires forall d :: d in Nodes(t) ==> d.m_pSubtractivePort == old(d.m_pSubtractivePort)
    requires forall e :: e in AllEnds(t) ==> old(allocated(e)) && e.m_pPort == old(e.m_pPort)
    requires Uplinked(v, t.device.m_pSubtractivePort, up)
    ensures Cached(t) && Joined(v, t, up)
  {
    hide Cached, ForestCached, Nodes, ForestNodes, AllEnds, ForestEnds, EndsJoined, ForestJoined, Uplinked, PortKept;
    TreeAllocated(t);
    CachedKept(t);
    EndsJoinedKept(below, v, t.ends, OfRoutingDevice(t.device));
    ForestJoinedKept(below, v, t.kids, OfRoutingDevice(t.device));
  }

  lemma TreeAllocated(t: DeviceTree)
    ensures forall d :: d in Nodes(t) ==> allocated(d)
    ensures forall e :: e in AllEnds(t) ==> allocated(e)
    ensures ForestNodes(t.kids) <= Nodes(t)
    ensures forall e :: e in ForestEnds(t.kids) ==> e in AllEnds(t)
    ensures forall e :: e in t.ends ==> e in AllEnds(t)
  {
    NodesAllocated(t.kids);
    EndsAllocated(t.kids);
  }

  lemma {:induction false} EndsAllocated(ts: seq<DeviceTree>)
    ensures forall e :: e in ForestEnds(ts) ==> allocated(e)
    decreases ts
  {
    if ts == [] {
    } else {
      TreeAllocated(ts[0]);
      EndsAllocated(ts[1..]);
    }
  }

  /** `ISCI_Expander::discover`, behind its subtractive port. */
  method DiscoverExpander(r: RoutingDevice, ports: seq<Find>, ghost depth: nat)
    returns (ghost w: World, ghost t: DeviceTree)
    requires r.lists == Lists([], [], [], [])
    requires var s := r.m_pSubtractivePort; s.isRemote && s.m_pRemotePort == null && s.m_pParent == OfRoutingDevice(r)
    modifies r
    ensures r.m_pSubtractivePort == old(r.m_pSubtractivePort)
    ensures Ranked(w) && r.m_pSubtractivePort in w.rank && w.rank[r.m_pSubtractivePort] == depth && r in w.devices
    ensures forall p :: p in w.rank ==> p == r.m_pSubtractivePort || fresh(p)
    ensures forall d :: d in Nodes(t) ==> d == r || fresh(d)
    ensures forall e :: e in AllEnds(t) ==> fresh(e)
    ensures t.device == r && FoundBelow(t.ends, t.kids, ports) && Cached(t)
    ensures EndsJoined(w, t.ends, OfRoutingDevice(r)) && ForestJoined(w, t.kids, OfRoutingDevice(r)) && TreeOnce(t)
    decreases ports, 2
  {
    ghost var start := World(map[r.m_pSubtractivePort := depth], {r});
    ghost var ends, kids;
    w, ends, kids := DiscoverBelow(OfRoutingDevice(r), ports, start, depth + 1);
    t := Tree(r, ends, kids);
    RootedOnce(t);
  }

  /** The loops over an owner's ports: all are created, and then each is discovered. */
  method DiscoverBelow(up: Parent, found: seq<Find>, ghost start: World, ghost depth: nat)
    returns (ghost w: World, ghost ends: seq<EndDevice>, ghost kids: seq<DeviceTree>)
    requires Owning(up) && ListsAt(up) == Lists([], [], [], []) && Ranked(start)
    requires Grounded(start, up, depth)
    modifies Owner(up)
    ensures OnlyLists(up) && ListsAt(up) == ListsOf(ends, kids) && ForestCached(kids)
    ensures Ranked(w) && Extends(start, w) && FoundBelow(ends, kids, found)
    ensures EndsJoined(w, ends, up) && ForestJoined(w, kids, up) && EachOnce(ends, kids)
    ensures forall p :: p in w.rank && p !in start.rank ==> fresh(p)
    ensures forall d :: d in ForestNodes(kids) ==> fresh(d)
    ensures forall e :: e in ends + ForestEnds(kids) ==> fresh(e)
    decreases found, 1
  {
    hide SoFar, ForestNodes, ForestEnds, Grounded, Extends;
    w, ends, kids := start, [], [];
    var ports;
    ports, w := CreatePorts(up, |found|, start, depth);
    NothingBelow(up, w);
    assert found[..0] == [];
    for i := 0 to |found|
      invariant OnlyLists(up) && Extends(start, w) && SoFar(up, w, ends, kids, found[..i])
      invariant forall k :: 0 <= k < |ports| ==>
                  fresh(ports[k]) && !ports[k].isRemote && ports[k].m_pParent == up && ports[k] in w.rank
      invariant forall p :: p in w.rank && p !in start.rank ==> fresh(p)
      invariant forall d :: d in ForestNodes(kids) ==> fresh(d)
      invariant forall e :: e in ends + ForestEnds(kids) ==> fresh(e)
    {
      ghost var was := w;
      w, ends, kids := DiscoverNext(up, ports[i], found[i], w, ends, kids, found[..i]);
      ExtendsTwice(start, was, w);
      assert found[..i + 1] == found[..i] + [found[i]];
    }
    assert found[..|found|] == found;
    SoFarMeans(up, w, ends, kids, found);
  }

  /** What has been attached to an owner is what was found so far, and all is right about it. */
  ghost predicate SoFar(up: Parent, w: World, ends: seq<EndDevice>, kids: seq<DeviceTree>, found: seq<Find>)
    reads *
  {
    && Owning(up) && ListsAt(up) == ListsOf(ends, kids) && ForestCached(kids) && Ranked(w)
    && FoundBelow(ends, kids, found) && EndsJoined(w, ends, up) && ForestJoined(w, kids, up) && EachOnce(ends, kids)
  }

  lemma SoFarMeans(up: Parent, w: World, ends: seq<EndDevice>, kids: seq<DeviceTree>, found: seq<Find>)
    requires SoFar(up, w, ends, kids, found)
    ensures Owning(up) && ListsAt(up) == ListsOf(ends, kids) && ForestCached(kids) && Ranked(w)
    ensures FoundBelow(ends, kids, found) && EachOnce(ends, kids)
    ensures EndsJoined(w, ends, up) && ForestJoined(w, kids, up)
  {
  }

  method CreatePorts(up: Parent, n: nat, ghost start: World, ghost depth: nat)
    returns (ports: seq<Port>, ghost w: World)
    requires Ranked(start) && Owning(up)
    requires Grounded(start, up, depth)
    ensures Ranked(w) && Extends(start, w) && |ports| == n
    ensures forall p :: p in w.rank && p !in start.rank ==> fresh(p)
    ensures forall k :: 0 <= k < n ==>
              fresh(ports[k]) && !ports[k].isRemote && ports[k].m_pParent == up && ports[k] in w.rank
  {
    ports, w := [], start;
    for i := 0 to n
      invariant |ports| == i && Ranked(w) && Extends(start, w)
      invariant forall p :: p in w.rank && p !in start.rank ==> fresh(p)
      invariant forall k :: 0 <= k < i ==>
                  fresh(ports[k]) && !ports[k].isRemote && ports[k].m_pParent == up && ports[k] in w.rank
    {
      var port := new Port(false, up);
      ports := ports + [port];
      w := World(w.rank[port := depth], w.devices);
    }
  }

  lemma NothingBelow(up: Parent, w: World)
    requires Owning(up) && ListsAt(up) == Lists([], [], [], []) && Ranked(w)
    ensures SoFar(up, w, [], [], [])
    ensures ForestNodes([]) == {} && ForestEnds<RoutingDevice, EndDevice>([]) == []
  {
  }

  lemma {:induction false} NodesAppend(ts: seq<DeviceTree>, t: DeviceTree)
    ensures ForestNodes(ts + [t]) == ForestNodes(ts) + Nodes(t)
  {
    if ts == [] {
      assert ForestNodes([t][1..]) == {};
    } else {
      assert (ts + [t])[1..] == ts[1..] + [t];
      NodesAppend(ts[1..], t);
    }
  }

  lemma FoundNext(ends: seq<EndDevice>, kids: seq<DeviceTree>, before: seq<Find>, found: Find, item: Option<DeviceItem>)
    requires FoundBelow(ends, kids, before)
    requires found.Nothing? <==> item.None?
    requires found.Disk? ==> item.value.Leaf?
    requires found.Expander? ==> item.value.Branch? && FoundBelow(item.value.t.ends, item.value.t.kids, found.ports)
    ensures item.None? ==> FoundBelow(ends, kids, before + [found])
    ensures item.Some? ==> FoundBelow(EndsWith(ends, item.value), KidsWith(kids, item.value), before + [found])
  {
    assert (before + [found])[..|before|] == before;
    if item.Some? {
      assert EndsWith(ends, item.value)[..|ends|] == ends && KidsWith(kids, item.value)[..|kids|] == kids;
    }
  }

  /** One turn of the discovering loop. */
  method DiscoverNext(up: Parent, port: Port, found: Find, ghost w: World, ghost ends: seq<EndDevice>,
                      ghost kids: seq<DeviceTree>, ghost before: seq<Find>)
    returns (ghost v: World, ghost ends': seq<EndDevice>, ghost kids': seq<DeviceTree>)
    requires SoFar(up, w, ends, kids, before)
    requires port in w.rank && !port.isRemote && port.m_pParent == up
    requires forall d :: d in ForestNodes(kids) ==> up != OfRoutingDevice(d)
    modifies port`m_pRemotePort, Owner(up)
    ensures OnlyLists(up) && Extends(w, v) && SoFar(up, v, ends', kids', before + [found])
    ensures forall p :: p in v.rank && p !in w.rank ==> fresh(p)
    ensures forall d :: d in ForestNodes(kids') ==> d in ForestNodes(kids) || fresh(d)
    ensures forall e :: e in ends' + ForestEnds(kids') ==> e in ends + ForestEnds(kids) || fresh(e)
    decreases found, 1
  {
    hide Cached, ForestCached, Nodes, ForestNodes, AllEnds, ForestEnds, Joined, ForestJoined, EndsJoined, Uplinked;
    hide FoundBelow, Ranked, ListsOf, Received, EachOnce, TreeOnce, ItemNodes, ItemEnds;
    NodesAllocated(kids);
    EndsAllocated(kids);
    ghost var item;
    v, item := DiscoverPort(port, found, w);
    FoundNext(ends, kids, before, found, item);
    if item.None? {
      ends', kids' := ends, kids;
      EndsJoinedKept(w, v, ends, up);
      ForestJoinedKept(w, v, kids, up);
      ForestCachedKept(kids);
    } else {
      ends', kids' := EndsWith(ends, item.value), KidsWith(kids, item.value);
      ItemAbsorbed(w, v, ends, kids, item.value, up);
      ItemAdds(ends, kids, item.value);
      ItemOnce(ends, kids, item.value);
    }
  }

  /** After a finished item was attached, the receiver's caches and links describe it as well. */
  twostate lemma ItemAbsorbed(new w: World, new v: World, new ends: seq<EndDevice>, kids: seq<DeviceTree>,
                              new item: DeviceItem, new up: Parent)
    requires old(allocated(w))
    requires old(allocated(up))
    requires old(allocated(ends))
    requires old(ForestCached(kids)) && old(EndsJoined(w, ends, up)) && old(ForestJoined(w, kids, up))
    requires (forall p :: p in w.rank ==> PortKept(p)) && w.rank.Keys <= v.rank.Keys
    requires forall d :: d in ForestNodes(kids) ==> old(allocated(d)) && d.lists == old(d.lists)
    requires forall d :: d in ForestNodes(kids) ==> d.m_pSubtractivePort == old(d.m_pSubtractivePort)
    requires forall e :: e in ends ==> old(allocated(e)) && e.m_pPort == old(e.m_pPort)
    requires forall e :: e in ForestEnds(kids) ==> old(allocated(e)) && e.m_pPort == old(e.m_pPort)
    requires item.Leaf? ==> Uplinked(v, item.e.m_pPort, up)
    requires item.Branch? ==> Cached(item.t) && Joined(v, item.t, up)
    ensures ForestCached(KidsWith(kids, item))
    ensures EndsJoined(v, EndsWith(ends, item), up) && ForestJoined(v, KidsWith(kids, item), up)
    ensures Received(ListsOf(ends, kids), item) == ListsOf(EndsWith(ends, item), KidsWith(kids, item))
  {
    hide PortKept, Cached, ForestCached, Joined, ForestJoined, Uplinked, ForestNodes, ForestEnds, ListsOf, Received;
    AttachKeepsCaches(ends, kids, item);
    EndsJoinedKept(w, v, ends, up);
    ForestJoinedKept(w, v, kids, up);
    if item.Branch? {
      ForestJoinedAppend(v, kids, item.t, up);
    }
  }

  lemma ItemAdds(ends: seq<EndDevice>, kids: seq<DeviceTree>, item: DeviceItem)
    ensures ForestNodes(KidsWith(kids, item)) == ForestNodes(kids) + ItemNodes(Some(item))
    ensures forall e :: e in EndsWith(ends, item) + ForestEnds(KidsWith(kids, item)) ==>
              e in ends + ForestEnds(kids) || e in ItemEnds(Some(item))
  {
    if item.Branch? {
      NodesAppend(kids, item.t);
      EndsAppend(kids, item.t);
    }
  }

  // ---- whole controllers ----

  /** A controller with everything that was discovered below it. */
  datatype Top = Top(controller: Controller, ends: seq<EndDevice>, kids: seq<DeviceTree>)

  /** The controller's lists and those of every device below describe the tree, and the tree is linked. */
  ghost predicate Discovered(w: World, top: Top)
    reads w.rank.Keys, ForestNodes(top.kids), top.controller, (set e | e in top.ends),
          set e | e in ForestEnds(top.kids)
  {
    && top.controller.lists == ListsOf(top.ends, top.kids) && ForestCached(top.kids)
    && EndsJoined(w, top.ends, OfController(top.controller)) && ForestJoined(w, top.kids, OfController(top.controller))
  }

  /** The ports' discovery by a controller, the end of `ISCI::discover`. */
  method DiscoverController(c: Controller, found: seq<Find>, ghost start: World)
    returns (ghost w: World, ghost top: Top)
    requires c.lists == Lists([], [], [], []) && Ranked(start)
    modifies c
    ensures c.m_Arrays == old(c.m_Arrays) && c.m_Volumes == old(c.m_Volumes)
    ensures top.controller == c && Discovered(w, top) && Ranked(w) && Extends(start, w)
    ensures FoundBelow(top.ends, top.kids, found) && EachOnce(top.ends, top.kids)
    ensures forall p :: p in w.rank && p !in start.rank ==> fresh(p)
    ensures forall d :: d in ForestNodes(top.kids) ==> fresh(d)
    ensures forall e :: e in top.ends + ForestEnds(top.kids) ==> fresh(e)
  {
    hide Ranked, ForestCached, EndsJoined, ForestJoined, FoundBelow, EachOnce, ForestNodes, ForestEnds;
    ghost var ends, kids;
    w, ends, kids := DiscoverBelow(OfController(c), found, start, 0);
    top := Top(c, ends, kids);
  }

  /** At every discovered controller the lists of all devices are the flattening of what lies below. */
  lemma DiscoveredListsFlatten(w: World, top: Top)
    requires Discovered(w, top)
    ensures top.controller.lists.GetEndDevices(true) == top.ends + ForestEnds(top.kids)
    ensures multiset(top.controller.lists.GetRoutingDevices(true)) == multiset(ForestPreorder(top.kids))
  {
    ListsAreFlattening(top.ends, top.kids);
  }

  /** And so they are at every routing device of a tree whose caches are right. */
  lemma {:induction false} CachedListsFlatten(ts: seq<DeviceTree>, t: DeviceTree)
    requires ForestCached(ts) && IsSubtree(ts, t)
    ensures t.device.lists.GetEndDevices(true) == t.ends + ForestEnds(t.kids)
    ensures multiset(t.device.lists.GetRoutingDevices(true)) == multiset(ForestPreorder(t.kids))
    decreases ts
  {
    if ts[0] == t {
      ListsAreFlattening(t.ends, t.kids);
    } else if IsSubtree(ts[0].kids, t) {
      CachedListsFlatten(ts[0].kids, t);
    } else {
      CachedListsFlatten(ts[1..], t);
    }
  }

  ghost predicate IsSubtree(ts: seq<DeviceTree>, t: DeviceTree)
    decreases ts
  {
    ts != [] && (ts[0] == t || IsSubtree(ts[0].kids, t) || IsSubtree(ts[1..], t))
  }

  /** Discovered controllers stay discovered as long as no device list and no link changes. */
  twostate lemma TopKept(new w: World, new v: World, top: Top)
    requires old(allocated(w))
    requires old(Discovered(w, top)) && top.controller.lists == old(top.controller.lists)
    requires (forall p :: p in w.rank ==> PortKept(p)) && w.rank.Keys <= v.rank.Keys
    requires forall d: RoutingDevice :: old(allocated(d)) ==> d.lists == old(d.lists)
    requires forall d: RoutingDevice :: old(allocated(d)) ==> d.m_pSubtractivePort == old(d.m_pSubtractivePort)
    requires forall e: EndDevice :: old(allocated(e)) ==> e.m_pPort == old(e.m_pPort)
    ensures Discovered(v, top)
  {
    hide PortKept, ForestCached, EndsJoined, ForestJoined, ForestNodes, ForestEnds, ListsOf;
    WereAllocated(top.kids);
    ForestCachedKept(top.kids);
    EndsJoinedKept(w, v, top.ends, OfController(top.controller));
    ForestJoinedKept(w, v, top.kids, OfController(top.controller));
  }

  twostate lemma {:induction false} WereAllocated(ts: seq<DeviceTree>)
    ensures forall d :: d in ForestNodes(ts) ==> old(allocated(d))
    ensures forall e :: e in ForestEnds(ts) ==> old(allocated(e))
    decreases ts
  {
    if ts == [] {
    } else {
      var t := ts[0];
      assert old(allocated(t.device)) && forall e :: e in t.ends ==> old(allocated(e));
      WereAllocated(t.kids);
      WereAllocated(ts[1..]);
      assert ForestNodes(ts) == {t.device} + ForestNodes(t.kids) + ForestNodes(ts[1..]);
      assert ForestEnds(ts) == t.ends + ForestEnds(t.kids) + ForestEnds(ts[1..]);
    }
  }

  lemma ListedClimbs(w: World, top: Top)
    requires Ranked(w) && Discovered(w, top)
    ensures forall e :: e in top.controller.lists.GetEndDevices(true) ==>
              e.m_pPort in w.rank && Root(w, e.m_pPort) == Some(top.controller)
  {
    EndsClimb(w, top.ends, OfController(top.controller), top.controller);
    ForestClimbs(w, top.kids, OfController(top.controller), top.controller);
  }

  /** Among separately discovered controllers, a disk's climb ends at the one controller whose
      `getEndDevices(all)` lists it, and at no other. */
  lemma ClimbEndsWhereListed(w: World, tops: seq<Top>, i: nat, j: nat, disk: EndDevice)
    requires Ranked(w) && i < |tops| && j < |tops|
    requires forall k :: 0 <= k < |tops| ==> Discovered(w, tops[k])
    requires forall k, l :: 0 <= k < l < |tops| ==> tops[k].controller != tops[l].controller
    requires disk in tops[j].controller.lists.GetEndDevices(true)
    ensures disk.m_pPort in w.rank
    ensures Root(w, disk.m_pPort) == Some(tops[i].controller) <==>
            disk in tops[i].controller.lists.GetEndDevices(true)
  {
    hide Ranked, Root, Discovered;
    assert Discovered(w, tops[i]) && Discovered(w, tops[j]);
    ListedClimbs(w, tops[i]);
    ListedClimbs(w, tops[j]);
  }

  /** A controller is reached from a member disk exactly when its `getEndDevices(all)` lists a member disk. */
  lemma AboveIffListed(w: World, tops: seq<Top>, i: nat, disks: seq<EndDevice>)
    requires Ranked(w) && i < |tops|
    requires forall k :: 0 <= k < |tops| ==> Discovered(w, tops[k])
    requires forall k, l :: 0 <= k < l < |tops| ==> tops[k].controller != tops[l].controller
    requires forall d :: d in disks ==> ListedSomewhere(tops, d)
    ensures forall d :: d in disks ==> d.m_pPort in w.rank
    ensures IsAbove(w, tops[i].controller, disks) <==> ListsMember(tops[i].controller, disks)
  {
    hide Ranked, Root, Discovered;
    forall d | d in disks
      ensures d.m_pPort in w.rank
      ensures Root(w, d.m_pPort) == Some(tops[i].controller) <==>
              d in tops[i].controller.lists.GetEndDevices(true)
    {
      var j :| 0 <= j < |tops| && d in tops[j].controller.lists.GetEndDevices(true);
      ClimbEndsWhereListed(w, tops, i, j, d);
    }
  }

  ghost predicate ListedSomewhere(tops: seq<Top>, d: EndDevice)
    reads set t | t in tops :: t.controller
  {
    exists j :: 0 <= j < |tops| && d in tops[j].controller.lists.GetEndDevices(true)
  }

  ghost predicate ListsMember(c: Controller, disks: seq<EndDevice>)
    reads c
  {
    HasMember(c.lists.GetEndDevices(true), disks)
  }

  ghost predicate HasMember(listed: seq<EndDevice>, disks: seq<EndDevice>) {
    exists d :: d in disks && d in listed
  }

  /** All end devices and all routing devices below the controllers. */
  ghost function AllEndsOf(tops: seq<Top>): seq<EndDevice> {
    if tops == [] then [] else
      var last := tops[|tops| - 1];
      AllEndsOf(tops[..|tops| - 1]) + last.ends + ForestEnds(last.kids)
  }

  ghost function AllDevicesOf(tops: seq<Top>): seq<RoutingDevice> {
    if tops == [] then [] else AllDevicesOf(tops[..|tops| - 1]) + ForestPreorder(tops[|tops| - 1].kids)
  }

  /** The controllers' part of `Session::initialize`: each is discovered and then added to the session. */
  method DiscoverAll(found: seq<seq<Find>>, session: Inventory)
    returns (controllers: seq<Controller>, ghost w: World, ghost tops: seq<Top>)
    requires session.m_EndDevices == [] && session.m_RoutingDevices == []
    modifies session
    ensures |controllers| == |tops| == |found| && AllDiscovered(w, tops, controllers)
    ensures forall i :: 0 <= i < |tops| ==>
              && tops[i].controller == controllers[i] && fresh(controllers[i])
              && FoundBelow(tops[i].ends, tops[i].kids, found[i])
              && controllers[i].m_Arrays == [] && controllers[i].m_Volumes == []
    ensures session.m_EndDevices == AllEndsOf(tops) && Once(multiset(AllEndsOf(tops)))
    ensures session.m_RoutingDevices == AllDevicesOf(tops) && Once(multiset(AllDevicesOf(tops)))
    ensures forall e :: e in session.m_EndDevices ==> fresh(e)
  {
    hide Ranked, Discovered, FoundBelow, AllEndsOf, AllDevicesOf, Once;
    controllers, w, tops := [], World(map[], {}), [];
    NoneYet();
    for i := 0 to |found|
      invariant |controllers| == |tops| == i && Ranked(w)
      invariant forall k :: 0 <= k < i ==>
                  && tops[k].controller == controllers[k] && fresh(controllers[k])
                  && Discovered(w, tops[k]) && FoundBelow(tops[k].ends, tops[k].kids, found[k])
                  && controllers[k].m_Arrays == [] && controllers[k].m_Volumes == []
      invariant forall k, l :: 0 <= k < l < i ==> controllers[k] != controllers[l]
      invariant session.m_EndDevices == AllEndsOf(tops) && Once(multiset(AllEndsOf(tops)))
      invariant session.m_RoutingDevices == AllDevicesOf(tops) && Once(multiset(AllDevicesOf(tops)))
      invariant forall e :: e in session.m_EndDevices ==> fresh(e)
    {
      var c;
      ghost var top;
      c, w, top := DiscoverOneMore(session, found[i], w, tops);
      controllers, tops := controllers + [c], tops + [top];
    }
  }

  lemma NoneYet()
    ensures Ranked(World(map[], {}))
    ensures AllEndsOf([]) == [] && Once(multiset(AllEndsOf([])))
    ensures AllDevicesOf([]) == [] && Once(multiset(AllDevicesOf([])))
  {
  }

  /** One more controller: what was discovered before stays so, and the session repeats nothing. */
  method DiscoverOneMore(session: Inventory, found: seq<Find>, ghost w: World, ghost tops: seq<Top>)
    returns (c: Controller, ghost v: World, ghost top: Top)
    requires Ranked(w) && forall k :: 0 <= k < |tops| ==> Discovered(w, tops[k])
    requires session.m_EndDevices == AllEndsOf(tops) && Once(multiset(AllEndsOf(tops)))
    requires session.m_RoutingDevices == AllDevicesOf(tops) && Once(multiset(AllDevicesOf(tops)))
    modifies session
    ensures fresh(c) && top.controller == c && c.m_Arrays == [] && c.m_Volumes == []
    ensures Ranked(v) && Discovered(v, top) && forall k :: 0 <= k < |tops| ==> Discovered(v, tops[k])
    ensures FoundBelow(top.ends, top.kids, found)
    ensures forall e :: e in session.m_EndDevices ==> e in old(session.m_EndDevices) || fresh(e)
    ensures session.m_EndDevices == AllEndsOf(tops + [top]) && Once(multiset(AllEndsOf(tops + [top])))
    ensures session.m_RoutingDevices == AllDevicesOf(tops + [top]) && Once(multiset(AllDevicesOf(tops + [top])))
  {
    hide Ranked, Discovered, FoundBelow, ForestNodes, ForestEnds, ForestPreorder, EachOnce, AllEndsOf;
    hide AllDevicesOf, Once;
    c := new Controller();
    v, top := DiscoverController(c, found, w);
    AddDiscovered(c, session, v, top);
    forall k | 0 <= k < |tops| ensures Discovered(v, tops[k]) {
      TopKept(w, v, tops[k]);
    }
    TopsAppend(tops, top);
  }

  /** Adding a discovered controller to a session. */
  method AddDiscovered(c: Controller, session: Inventory, ghost w: World, ghost top: Top)
    requires Discovered(w, top) && top.controller == c
    modifies session
    ensures Discovered(w, top)
    ensures session.m_EndDevices == old(session.m_EndDevices) + (top.ends + ForestEnds(top.kids))
    ensures session.m_RoutingDevices == old(session.m_RoutingDevices) + ForestPreorder(top.kids)
  {
    CachedIsShaped(top.kids);
    hide ForestCached, ForestShaped, ForestNodes, ForestEnds, ForestPreorder, EndsJoined, ForestJoined;
    c.AddToSession(session, top.kids);
    TopKept(w, w, top);
    assert old(session.m_EndDevices) + top.ends + ForestEnds(top.kids)
        == old(session.m_EndDevices) + (top.ends + ForestEnds(top.kids));
  }

  /** A controller with new devices only makes no repetition. */
  lemma TopsAppend(tops: seq<Top>, top: Top)
    requires Once(multiset(AllEndsOf(tops))) && Once(multiset(AllDevicesOf(tops))) && EachOnce(top.ends, top.kids)
    requires forall e :: e in top.ends + ForestEnds(top.kids) ==> e !in AllEndsOf(tops)
    requires forall d :: d in ForestNodes(top.kids) ==> d !in AllDevicesOf(tops)
    ensures AllEndsOf(tops + [top]) == AllEndsOf(tops) + (top.ends + ForestEnds(top.kids))
    ensures AllDevicesOf(tops + [top]) == AllDevicesOf(tops) + ForestPreorder(top.kids)
    ensures Once(multiset(AllEndsOf(tops + [top]))) && Once(multiset(AllDevicesOf(tops + [top])))
  {
    hide ForestEnds, ForestNodes, ForestPreorder, EachOnce;
    assert (tops + [top])[..|tops|] == tops;
    OnceMore(AllEndsOf(tops), AllDevicesOf(tops), top);
    assert AllEndsOf(tops + [top]) == AllEndsOf(tops) + (top.ends + ForestEnds(top.kids));
  }

  lemma OnceMore(ends: seq<EndDevice>, devices: seq<RoutingDevice>, top: Top)
    requires Once(multiset(ends)) && Once(multiset(devices)) && EachOnce(top.ends, top.kids)
    requires forall e :: e in top.ends + ForestEnds(top.kids) ==> e !in ends
    requires forall d :: d in ForestNodes(top.kids) ==> d !in devices
    ensures Once(multiset(ends + (top.ends + ForestEnds(top.kids))))
    ensures Once(multiset(devices + ForestPreorder(top.kids)))
  {
    hide ForestEnds, ForestNodes, ForestPreorder;
    PreorderInNodes(top.kids);
    var more := top.ends + ForestEnds(top.kids);
    assert multiset(more) == multiset(top.ends) + multiset(ForestEnds(top.kids));
    forall e | e in multiset(more) ensures e !in multiset(ends) {
      assert e in more;
    }
    forall d | d in multiset(ForestPreorder(top.kids)) ensures d !in multiset(devices) {
      assert d in ForestPreorder(top.kids);
    }
    assert multiset(ends + more) == multiset(ends) + multiset(more);
    assert multiset(devices + ForestPreorder(top.kids)) == multiset(devices) + multiset(ForestPreorder(top.kids));
    OnceUnion(multiset(ends), multiset(top.ends + ForestEnds(top.kids)));
    OnceUnion(multiset(devices), multiset(ForestPreorder(top.kids)));
  }

  // ---- arrays and volumes over discovered controllers ----

  ghost predicate AllDiscovered(w: World, tops: seq<Top>, controllers: seq<Controller>)
    reads *
  {
    && |controllers| == |tops| && Ranked(w)
    && (forall i :: 0 <= i < |tops| ==> tops[i].controller == controllers[i] && Discovered(w, tops[i]))
    && (forall i, j :: 0 <= i < j < |tops| ==> controllers[i] != controllers[j])
  }

  /** After an array or volume was attached to its members, a controller lists it exactly once if it did before
      or if its `getEndDevices(all)` lists a member, and not at all otherwise. */
  method AttachDiscovered(raid: Raid, kind: RaidKind, disks: seq<EndDevice>, controllers: seq<Controller>,
                          ghost w: World, ghost tops: seq<Top>)
    requires AllDiscovered(w, tops, controllers) && forall d :: d in disks ==> ListedSomewhere(tops, d)
    requires forall c :: c in controllers ==> NoDuplicates(c.Raids(kind))
    modifies (set d | d in disks)`m_pArray, (set d | d in disks)`m_Volumes
    modifies set c | c in controllers
    ensures AllDiscovered(w, tops, controllers)
    ensures forall c :: c in controllers ==>
              && Took(c, kind, raid, old(ListsMember(c, disks))) && NoDuplicates(c.Raids(kind))
              && multiset(c.Raids(kind))[raid] == if old(raid in c.Raids(kind) || ListsMember(c, disks)) then 1 else 0
  {
    hide Ranked, Root, Discovered, NoDuplicates, ListedSomewhere, WithRaid;
    forall i | 0 <= i < |tops|
      ensures forall d :: d in disks ==> d.m_pPort in w.rank
      ensures IsAbove(w, controllers[i], disks) <==> ListsMember(controllers[i], disks)
    {
      AboveIffListed(w, tops, i, disks);
    }
    forall d | d in disks ensures d.m_pPort in w.rank && Reach(Root(w, d.m_pPort)) <= set c | c in controllers {
      ListedReaches(w, tops, controllers, d);
    }
    raid.AttachTo(kind, disks, w, set c | c in controllers);
    forall i | 0 <= i < |tops| ensures Discovered(w, tops[i]) {
      assert controllers[i] in controllers;
      TopKept(w, w, tops[i]);
    }
    RankedKept(w);
  }

  lemma ListedReaches(w: World, tops: seq<Top>, controllers: seq<Controller>, d: EndDevice)
    requires AllDiscovered(w, tops, controllers) && ListedSomewhere(tops, d)
    ensures d.m_pPort in w.rank && Reach(Root(w, d.m_pPort)) <= set c | c in controllers
  {
    hide Ranked, Root, Discovered;
    var j :| 0 <= j < |tops| && d in tops[j].controller.lists.GetEndDevices(true);
    ClimbEndsWhereListed(w, tops, j, j, d);
    assert controllers[j] in controllers;
  }

  twostate lemma RankedKept(w: World)
    requires old(Ranked(w))
    requires forall p: Port :: old(allocated(p)) ==>
               p.m_pParent == old(p.m_pParent) && p.m_pRemotePort == old(p.m_pRemotePort)
    requires forall d: RoutingDevice :: old(allocated(d)) ==> d.m_pSubtractivePort == old(d.m_pSubtractivePort)
    ensures Ranked(w)
  {
  }

  // ---- a whole session ----

  /** The member disks of an array or volume, given by their places in the session's list. */
  function Chosen(disks: seq<EndDevice>, places: seq<nat>): (r: seq<EndDevice>)
    ensures forall d :: d in r ==> d in disks
  {
    if places == [] then [] else
      (if places[0] < |disks| then [disks[places[0]]] else []) + Chosen(disks, places[1..])
  }

  /** How often the controller lists the array or volume: once if a member is listed, and not otherwise. */
  ghost predicate ListsRaid(c: Controller, kind: RaidKind, raid: Raid, disks: seq<EndDevice>)
    reads c
  {
    multiset(c.Raids(kind))[raid] == if ListsMember(c, disks) then 1 else 0
  }

  /** `Session::initialize`: whatever is found behind whatever controllers, and whatever disks the arrays and
      volumes have, every controller's caches are right, the session has every device once, and a controller
      lists an array or volume exactly once if its `getEndDevices(all)` lists a member, and else not at all. */
  method Initialize(found: seq<seq<Find>>, raids: seq<(RaidKind, seq<nat>)>)
    returns (session: Inventory, controllers: seq<Controller>, made: seq<Raid>, ghost w: World, ghost tops: seq<Top>)
    ensures AllDiscovered(w, tops, controllers) && |tops| == |found| && |made| == |raids|
    ensures forall i :: 0 <= i < |tops| ==> FoundBelow(tops[i].ends, tops[i].kids, found[i])
    ensures session.m_EndDevices == AllEndsOf(tops) && Once(multiset(AllEndsOf(tops)))
    ensures session.m_RoutingDevices == AllDevicesOf(tops) && Once(multiset(AllDevicesOf(tops)))
    ensures forall k, c :: 0 <= k < |raids| && c in controllers ==>
              ListsRaid(c, raids[k].0, made[k], Chosen(session.m_EndDevices, raids[k].1))
  {
    hide Discovered, FoundBelow, AllEndsOf, AllDevicesOf, Once, Ranked, ListedSomewhere, AllDiscovered, Booked, Chosen;
    session := new Inventory();
    controllers, w, tops := DiscoverAll(found, session);
    AllListed(w, tops, controllers);
    made := [];
    NothingBooked(controllers, session.m_EndDevices);
    for k := 0 to |raids|
      invariant |made| == k && AllDiscovered(w, tops, controllers)
      invariant forall d :: d in session.m_EndDevices ==> ListedSomewhere(tops, d) && fresh(d)
      invariant forall i :: 0 <= i < |controllers| ==> fresh(controllers[i])
      invariant session.m_EndDevices == AllEndsOf(tops) && session.m_RoutingDevices == AllDevicesOf(tops)
      invariant Booked(controllers, session.m_EndDevices, raids[..k], made)
    {
      var raid := AttachNew(raids[k], session.m_EndDevices, controllers, w, tops, raids[..k], made);
      made := made + [raid];
      assert raids[..k + 1] == raids[..k] + [raids[k]];
    }
    assert raids[..|raids|] == raids;
    assert Booked(controllers, session.m_EndDevices, raids, made);
    BookedLists(controllers, session.m_EndDevices, raids, made);
  }

  method AttachNew(given: (RaidKind, seq<nat>), all: seq<EndDevice>, controllers: seq<Controller>, ghost w: World,
                   ghost tops: seq<Top>, ghost raids: seq<(RaidKind, seq<nat>)>, ghost made: seq<Raid>)
    returns (raid: Raid)
    requires AllDiscovered(w, tops, controllers) && Booked(controllers, all, raids, made)
    requires forall d :: d in all ==> ListedSomewhere(tops, d)
    modifies (set d | d in all)`m_pArray, (set d | d in all)`m_Volumes, set c | c in controllers
    ensures AllDiscovered(w, tops, controllers) && Booked(controllers, all, raids + [given], made + [raid])
    ensures forall d :: d in all ==> ListedSomewhere(tops, d)
  {
    hide AllDiscovered, WithRaid, ListsMember;
    raid := new Raid();
    var disks := Chosen(all, given.1);
    AttachDiscovered(raid, given.0, disks, controllers, w, tops);
    forall c | c in controllers ensures BookedAt(c, all, raids + [given], made + [raid]) {
      BookedNext(c, all, given, raids, made, raid);
    }
  }

  /** What the controllers list is, for each array and volume so far, what they have members of. */
  ghost predicate Booked(controllers: seq<Controller>, all: seq<EndDevice>, raids: seq<(RaidKind, seq<nat>)>,
                         made: seq<Raid>)
    reads set c | c in controllers
  {
    |made| == |raids| && forall c :: c in controllers ==> BookedAt(c, all, raids, made)
  }

  ghost predicate BookedAt(c: Controller, all: seq<EndDevice>, raids: seq<(RaidKind, seq<nat>)>, made: seq<Raid>)
    requires |made| == |raids|
    reads c
  {
    && (forall kind: RaidKind, x :: x in c.Raids(kind) ==> x in made)
    && (forall kind: RaidKind :: NoDuplicates(c.Raids(kind)))
    && (forall j :: 0 <= j < |raids| ==> ListsRaid(c, raids[j].0, made[j], Chosen(all, raids[j].1)))
  }

  lemma NothingBooked(controllers: seq<Controller>, all: seq<EndDevice>)
    requires forall c :: c in controllers ==> c.m_Arrays == [] && c.m_Volumes == []
    ensures Booked(controllers, all, [], [])
  {
  }

  lemma BookedLists(controllers: seq<Controller>, all: seq<EndDevice>, raids: seq<(RaidKind, seq<nat>)>,
                    made: seq<Raid>)
    requires Booked(controllers, all, raids, made)
    ensures |made| == |raids|
    ensures forall k, c :: 0 <= k < |raids| && c in controllers ==>
              ListsRaid(c, raids[k].0, made[k], Chosen(all, raids[k].1))
  {
  }

  /** A new array or volume changes nothing about the earlier ones. */
  twostate lemma BookedNext(new c: Controller, new all: seq<EndDevice>, new given: (RaidKind, seq<nat>),
                            new raids: seq<(RaidKind, seq<nat>)>, made: seq<Raid>, new raid: Raid)
    requires old(allocated(c))
    requires old(allocated(all))
    requires old(allocated(raids))
    requires |made| == |raids| && raid !in made
    requires old(BookedAt(c, all, raids, made))
    requires var disks := Chosen(all, given.1);
             && Took(c, given.0, raid, old(ListsMember(c, disks))) && NoDuplicates(c.Raids(given.0))
             && multiset(c.Raids(given.0))[raid] ==
                if old(raid in c.Raids(given.0) || ListsMember(c, disks)) then 1 else 0
    ensures BookedAt(c, all, raids + [given], made + [raid])
  {
    hide Chosen, WithRaid, NoDuplicates, HasMember;
    forall kind: RaidKind
      ensures forall x :: x in c.Raids(kind) ==> x in made + [raid]
      ensures NoDuplicates(c.Raids(kind))
      ensures forall x :: x in made ==> multiset(c.Raids(kind))[x] == multiset(old(c.Raids(kind)))[x]
    {
      assert forall x :: x in old(c.Raids(kind)) ==> x in made;
      RaidCounts(old(c.Raids(kind)), raid);
    }
  }

  lemma RaidCounts(list: seq<Raid>, raid: Raid)
    ensures forall x :: x in WithRaid(list, raid) ==> x in list || x == raid
    ensures forall x :: x != raid ==> multiset(WithRaid(list, raid))[x] == multiset(list)[x]
  {
  }

  lemma AllListed(w: World, tops: seq<Top>, controllers: seq<Controller>)
    requires AllDiscovered(w, tops, controllers)
    ensures forall d :: d in AllEndsOf(tops) ==> ListedSomewhere(tops, d)
  {
    SessionIsListed(w, tops);
  }

  lemma {:induction false} SessionIsListed(w: World, tops: seq<Top>)
    requires forall i :: 0 <= i < |tops| ==> Discovered(w, tops[i])
    ensures forall d :: d in AllEndsOf(tops) ==> ListedSomewhere(tops, d)
  {
    if tops == [] {
    } else {
      var init, last := tops[..|tops| - 1], tops[|tops| - 1];
      SessionIsListed(w, init);
      assert last.controller.lists.GetEndDevices(true) == last.ends + ForestEnds(last.kids);
      forall d | d in AllEndsOf(tops) ensures ListedSomewhere(tops, d) {
        if d in AllEndsOf(init) {
          var j :| 0 <= j < |init| && d in init[j].controller.lists.GetEndDevices(true);
          assert d in tops[j].controller.lists.GetEndDevices(true);
        } else {
          assert d in tops[|tops| - 1].controller.lists.GetEndDevices(true);
        }
      }
    }
  }
}
