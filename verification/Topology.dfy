/** Controllers, routing devices, end devices and the ports that join them: how attaching keeps the cached
    device lists, how a session is filled from them, and how arrays and volumes climb to the controller. */
module Topology {
  import opened Wrappers
  import opened Trees

  type DeviceTree = Tree<RoutingDevice, EndDevice>
  type DeviceLists = Lists<RoutingDevice, EndDevice>

  datatype RaidKind = ArrayKind | VolumeKind

  datatype Parent = NoParent | OfController(controller: Controller) | OfRoutingDevice(device: RoutingDevice)
                  | OfEndDevice(endDevice: EndDevice)

  /** The two lists of a session that devices add themselves to. */
  class Inventory {
    var m_EndDevices: seq<EndDevice>
    var m_RoutingDevices: seq<RoutingDevice>

    constructor ()
      ensures m_EndDevices == [] && m_RoutingDevices == []
    {
      m_EndDevices, m_RoutingDevices := [], [];
    }
  }

  // ---- ports ----

  /** A plain port, or a remote port, which forwards to the port it is connected to. */
  class Port {
    const isRemote: bool
    var m_pParent: Parent
    var m_pRemotePort: Port?

    constructor (isRemote: bool, parent: Parent)
      ensures this.isRemote == isRemote && m_pParent == parent && m_pRemotePort == null
    {
      this.isRemote, this.m_pParent, this.m_pRemotePort := isRemote, parent, null;
    }

    /** The device that grows when something is attached through this port. */
    ghost function Receiver(): set<object>
      reads this
    {
      if isRemote then {} else
        match m_pParent
        case OfController(c) => {c}
        case OfRoutingDevice(r) => {r}
        case _ => {}
    }

    /** Connects two ports, one of which is remote. What the remote port belongs to is attached to what the
        other one belongs to; false stands for the exceptions. */
    method AttachPort(port: Port, ghost w: World) returns (ok: bool)
      requires isRemote || port.isRemote
      modifies this`m_pRemotePort, port`m_pRemotePort, Receiver(), port.Receiver()
      ensures port == this ==> !ok && m_pRemotePort == old(m_pRemotePort)
      ensures port != this ==> m_pRemotePort == port && (!isRemote ==> port.m_pRemotePort == this)
      ensures port != this && isRemote ==> port.m_pRemotePort == old(port.m_pRemotePort)
      ensures port != this ==>
                var below := if isRemote then this else port;
                var above := if isRemote then port else this;
                Grown(above, below.m_pParent) && (ok <==> Accepts(above, below.m_pParent))
      ensures (&& port != this && old(Ranked(w)) && this in w.rank && port in w.rank
               && if isRemote then w.rank[port] < w.rank[this] else w.rank[this] < w.rank[port]) ==> Ranked(w)
      decreases if isRemote then 0 else 1
    {
      if port == this {
        return false;
      }
      m_pRemotePort := port;
      if !isRemote {
        ok := port.AttachPort(this, w);
      } else {
        match m_pParent {
          case OfRoutingDevice(r) => ok := port.AttachRoutingDevice(r);
          case OfEndDevice(e) => ok := port.AttachEndDevice(e);
          case _ => ok := true;
        }
      }
    }

    method AttachRoutingDevice(r: RoutingDevice) returns (ok: bool)
      modifies Receiver()
      ensures Grown(this, OfRoutingDevice(r)) && (ok <==> Accepts(this, OfRoutingDevice(r)))
    {
      if isRemote {
        return false;
      }
      match m_pParent {
        case OfController(c) => c.AttachRoutingDevice(r);
        case OfRoutingDevice(q) => q.AttachRoutingDevice(r);
        case OfEndDevice(_) => return false;
        case NoParent =>
      }
      return true;
    }

    method AttachEndDevice(e: EndDevice) returns (ok: bool)
      modifies Receiver()
      ensures Grown(this, OfEndDevice(e)) && (ok <==> Accepts(this, OfEndDevice(e)))
    {
      if isRemote {
        return false;
      }
      match m_pParent {
        case OfController(c) => c.AttachEndDevice(e);
        case OfRoutingDevice(q) => q.AttachEndDevice(e);
        case OfEndDevice(_) => return false;
        case NoParent =>
      }
      return true;
    }

    /** `attachArray` and `attachVolume`: a remote port passes on to its peer, a plain one to its parent. */
    method Attach(kind: RaidKind, raid: Raid, ghost w: World)
      requires Ranked(w) && this in w.rank
      modifies Reach(Root(w, this))
      ensures Listed(Root(w, this), kind, raid)
      decreases w.rank[this], 0
    {
      if isRemote {
        if m_pRemotePort != null {
          m_pRemotePort.Attach(kind, raid, w);
        }
      } else {
        match m_pParent {
          case OfController(c) => c.Attach(kind, raid);
          case OfRoutingDevice(r) => r.Attach(kind, raid, w);
          case _ =>
        }
      }
    }
  }

  /** A port hands newcomers to its parent unless it is remote or belongs to an end device. */
  ghost predicate Accepts(above: Port, newcomer: Parent)
    reads above
  {
    newcomer.OfRoutingDevice? || newcomer.OfEndDevice? ==> !above.isRemote && !above.m_pParent.OfEndDevice?
  }

  /** The receiving device's lists have grown by the newcomer, as it stood before. */
  twostate predicate Grown(above: Port, newcomer: Parent)
    reads above, above.Receiver()
  {
    if above.isRemote then true else
      match above.m_pParent
      case OfController(c) => old(allocated(c)) && c.lists == old(GrownLists(c.lists, above.m_pParent, newcomer))
                              && c.m_Arrays == old(c.m_Arrays) && c.m_Volumes == old(c.m_Volumes)
      case OfRoutingDevice(r) => old(allocated(r)) && r.lists == old(GrownLists(r.lists, above.m_pParent, newcomer))
                                 && r.m_pSubtractivePort == old(r.m_pSubtractivePort)
      case _ => true
  }

  /** A device attached to itself is listed before its own lists are read. */
  ghost function GrownLists(lists: DeviceLists, receiver: Parent, newcomer: Parent): DeviceLists
    reads if newcomer.OfRoutingDevice? then {newcomer.device} else {}
  {
    match newcomer
    case OfRoutingDevice(r) => lists.WithRoutingDevice(r, if receiver == newcomer then lists.Listing(r) else r.lists)
    case OfEndDevice(e) => lists.WithEndDevice(e)
    case _ => lists
  }

  // ---- devices ----

  class RoutingDevice {
    /** The four containers of devices below. */
    var lists: DeviceLists
    var m_pSubtractivePort: Port

    constructor (port: Port)
      ensures lists == Lists([], [], [], []) && m_pSubtractivePort == port
    {
      lists, m_pSubtractivePort := Lists([], [], [], []), port;
    }

    method AttachEndDevice(e: EndDevice)
      modifies this`lists
      ensures lists == old(lists).WithEndDevice(e)
    {
      lists := lists.WithEndDevice(e);
    }

    method AttachRoutingDevice(r: RoutingDevice)
      modifies this`lists
      ensures lists == old(lists.WithRoutingDevice(r, if r == this then lists.Listing(r) else r.lists))
    {
      lists := lists.(devicesDirect := lists.devicesDirect + [r]);
      lists := lists.(ends := lists.ends + r.lists.GetEndDevices(true));
      lists := lists.(devices := lists.devices + r.lists.GetRoutingDevices(true));
    }

    method Attach(kind: RaidKind, raid: Raid, ghost w: World)
      requires Ranked(w) && m_pSubtractivePort in w.rank
      modifies Reach(Root(w, m_pSubtractivePort))
      ensures Listed(Root(w, m_pSubtractivePort), kind, raid)
      decreases w.rank[m_pSubtractivePort], 1
    {
      m_pSubtractivePort.Attach(kind, raid, w);
    }

    /** Puts this device, its end devices and everything below into the session; what is below must be finite. */
    method AddToSession(session: Inventory, ghost t: DeviceTree)
      requires t.device == this && Shaped(t)
      modifies session
      ensures session.m_EndDevices == old(session.m_EndDevices) + AllEnds(t)
      ensures session.m_RoutingDevices == old(session.m_RoutingDevices) + Preorder(t)
      decreases t
    {
      NodesAllocated(t.kids);
      session.m_RoutingDevices := session.m_RoutingDevices + [this];
      AddEnds(lists.endsDirect, session);
      ForestShapedKept(t.kids);
      AddForest(lists.devicesDirect, session, t.kids);
    }
  }

  class Controller {
    var lists: DeviceLists
    var m_Arrays: seq<Raid>
    var m_Volumes: seq<Raid>

    constructor ()
      ensures lists == Lists([], [], [], []) && m_Arrays == [] && m_Volumes == []
    {
      lists, m_Arrays, m_Volumes := Lists([], [], [], []), [], [];
    }

    function Raids(kind: RaidKind): seq<Raid>
      reads this
    {
      if kind.ArrayKind? then m_Arrays else m_Volumes
    }

    method AttachEndDevice(e: EndDevice)
      modifies this`lists
      ensures lists == old(lists).WithEndDevice(e)
    {
      lists := lists.WithEndDevice(e);
    }

    method AttachRoutingDevice(r: RoutingDevice)
      modifies this`lists
      ensures lists == old(lists).WithRoutingDevice(r, r.lists)
    {
      lists := lists.(devicesDirect := lists.devicesDirect + [r]);
      lists := lists.(ends := lists.ends + r.lists.GetEndDevices(true));
      lists := lists.(devices := lists.devices + r.lists.GetRoutingDevices(true));
    }

    /** `attachArray` and `attachVolume` of the controller: nothing is listed twice. */
    method Attach(kind: RaidKind, raid: Raid)
      modifies this`m_Arrays, this`m_Volumes
      ensures forall k: RaidKind :: Raids(k) == if k == kind then WithRaid(old(Raids(k)), raid) else old(Raids(k))
    {
      var list := Raids(kind);
      for i := 0 to |list|
        invariant raid !in list[..i]
      {
        if list[i] == raid {
          return;
        }
      }
      assert list[..|list|] == list;
      match kind {
        case ArrayKind => m_Arrays := m_Arrays + [raid];
        case VolumeKind => m_Volumes := m_Volumes + [raid];
      }
    }

    /** Puts every device below the controller into the session. */
    method AddToSession(session: Inventory, ghost kids: seq<DeviceTree>)
      requires lists.devicesDirect == Roots(kids) && ForestShaped(kids)
      modifies session
      ensures session.m_EndDevices == old(session.m_EndDevices) + lists.endsDirect + ForestEnds(kids)
      ensures session.m_RoutingDevices == old(session.m_RoutingDevices) + ForestPreorder(kids)
    {
      hide ForestShaped, ForestEnds, ForestPreorder, ForestNodes, Roots, ForestBelow;
      NodesAllocated(kids);
      AddEnds(lists.endsDirect, session);
      ForestShapedKept(kids);
      AddForest(lists.devicesDirect, session, kids);
    }
  }

  /** The loop over the routing devices attached to a device. */
  method AddForest(devices: seq<RoutingDevice>, session: Inventory, ghost kids: seq<DeviceTree>)
    requires devices == Roots(kids) && ForestShaped(kids)
    modifies session
    ensures session.m_EndDevices == old(session.m_EndDevices) + ForestEnds(kids)
    ensures session.m_RoutingDevices == old(session.m_RoutingDevices) + ForestPreorder(kids)
    decreases kids, 0
  {
    hide ForestShaped, Shaped, ForestEnds, ForestPreorder, AllEnds, Preorder, ForestNodes, Roots;
    NodesAllocated(kids);
    NothingYet();
    assert kids[..0] == [];
    for i := 0 to |devices|
      invariant session.m_EndDevices == old(session.m_EndDevices) + ForestEnds(kids[..i])
      invariant session.m_RoutingDevices == old(session.m_RoutingDevices) + ForestPreorder(kids[..i])
    {
      ForestShapedKept(kids);
      ForestShapedAt(kids, i);
      devices[i].AddToSession(session, kids[i]);
      assert kids[..i + 1] == kids[..i] + [kids[i]];
      EndsAppend(kids[..i], kids[i]);
      PreorderAppend(kids[..i], kids[i]);
    }
    assert kids[..|kids|] == kids;
  }

  lemma NothingYet()
    ensures ForestEnds<RoutingDevice, EndDevice>([]) == []
    ensures ForestPreorder<RoutingDevice, EndDevice>([]) == []
  {
  }

  method AddEnds(ends: seq<EndDevice>, session: Inventory)
    modifies session
    ensures session.m_EndDevices == old(session.m_EndDevices) + ends
    ensures session.m_RoutingDevices == old(session.m_RoutingDevices)
  {
    for i := 0 to |ends|
      invariant session.m_EndDevices == old(session.m_EndDevices) + ends[..i]
      invariant session.m_RoutingDevices == old(session.m_RoutingDevices)
    {
      ends[i].AddToSession(session);
    }
  }

  class EndDevice {
    var m_pPort: Port
    var m_pArray: Raid?
    var m_Volumes: seq<Raid>

    constructor (port: Port)
      ensures m_pPort == port && m_pArray == null && m_Volumes == []
    {
      m_pPort, m_pArray, m_Volumes := port, null, [];
    }

    method AddToSession(session: Inventory)
      modifies session
      ensures session.m_EndDevices == old(session.m_EndDevices) + [this]
      ensures session.m_RoutingDevices == old(session.m_RoutingDevices)
    {
      session.m_EndDevices := session.m_EndDevices + [this];
    }

    /** The start of the climb; refuses a null array or volume. */
    method Attach(kind: RaidKind, raid: Raid?, ghost w: World) returns (ok: bool)
      requires Ranked(w) && m_pPort in w.rank
      modifies this`m_pArray, this`m_Volumes, Reach(Root(w, m_pPort))
      ensures ok <==> raid != null
      ensures raid == null ==> m_pArray == old(m_pArray) && m_Volumes == old(m_Volumes)
      ensures raid != null && kind == ArrayKind ==> m_pArray == raid && m_Volumes == old(m_Volumes)
      ensures raid != null && kind == VolumeKind ==> m_pArray == old(m_pArray) && m_Volumes == old(m_Volumes) + [raid]
      ensures raid != null ==> Listed(Root(w, m_pPort), kind, raid)
      ensures raid == null ==> Unlisted(Root(w, m_pPort))
    {
      if raid == null {
        return false;
      }
      match kind {
        case ArrayKind => m_pArray := raid;
        case VolumeKind => m_Volumes := m_Volumes + [raid];
      }
      m_pPort.Attach(kind, raid, w);
      return true;
    }
  }

  /** An array or a volume, attached to each of its member disks in turn. However many of them lie below a
      controller, it lists the array or volume once, and not at all if none does and it was not listed. */
  class Raid {
    constructor ()
    {
    }

    method AttachTo(kind: RaidKind, disks: seq<EndDevice>, ghost w: World, ghost controllers: set<Controller>)
      requires Ranked(w) && forall d :: d in disks ==> d.m_pPort in w.rank
      requires forall c :: c in controllers ==> NoDuplicates(c.Raids(kind))
      modifies (set d | d in disks)`m_pArray, (set d | d in disks)`m_Volumes, Reached(w, disks)
      ensures forall c :: c in controllers ==>
                && Took(c, kind, this, old(IsAbove(w, c, disks)))
                && NoDuplicates(c.Raids(kind))
                && multiset(c.Raids(kind))[this] == if old(this in c.Raids(kind) || IsAbove(w, c, disks)) then 1 else 0
    {
      ghost var roots := RootsOf(w, disks);
      assert forall c :: c in controllers ==> (IsAbove(w, c, disks) <==> Some(c) in roots);
      AttachEach(kind, disks, w, controllers, roots);
      forall c | c in controllers
        ensures NoDuplicates(c.Raids(kind)) && multiset(c.Raids(kind))[this] == if this in c.Raids(kind) then 1 else 0
      {
        WithRaidOnce(old(c.Raids(kind)), this);
        OnceIfPresent(c.Raids(kind), this);
      }
    }

    /** One member disk: at most the controller its climb ends at changes. */
    method AttachOne(kind: RaidKind, disk: EndDevice, ghost w: World, ghost controllers: set<Controller>,
                     ghost root: Option<Controller>)
      requires Ranked(w) && disk.m_pPort in w.rank && root == Root(w, disk.m_pPort)
      modifies disk`m_pArray, disk`m_Volumes, Reach(root)
      ensures forall c :: c in controllers ==> Took(c, kind, this, Some(c) == root)
    {
      hide Ranked, Root, WithRaid;
      var ok := disk.Attach(kind, this, w);
    }

    method AttachEach(kind: RaidKind, disks: seq<EndDevice>, ghost w: World, ghost controllers: set<Controller>,
                      ghost roots: seq<Option<Controller>>)
      requires Ranked(w) && (forall d :: d in disks ==> d.m_pPort in w.rank) && roots == RootsOf(w, disks)
      modifies (set d | d in disks)`m_pArray, (set d | d in disks)`m_Volumes, Reached(w, disks)
      ensures forall c :: c in controllers ==> Took(c, kind, this, Some(c) in roots)
    {
      hide Ranked, Root, Reached, RootsOf, Reach, WithRaid;
      WithRaidAgain(this);
      forall i | 0 <= i < |disks| ensures Reach(roots[i]) <= Reached(w, disks) {
        assert disks[i] in disks;
        ReachedContains(w, disks, disks[i]);
      }
      for i := 0 to |disks|
        invariant forall k :: 0 <= k < |disks| ==> disks[k].m_pPort == old(disks[k].m_pPort)
        invariant forall c :: c in controllers ==> Took(c, kind, this, Some(c) in roots[..i])
      {
        assert disks[i] in disks && Root(w, disks[i].m_pPort) == roots[i];
        AttachOne(kind, disks[i], w, controllers, roots[i]);
        OneMoreRoot(roots, i);
      }
      assert roots[..|disks|] == roots;
    }
  }

  lemma OneMoreRoot(roots: seq<Option<Controller>>, i: nat)
    requires i < |roots|
    ensures forall r :: r in roots[..i + 1] <==> r in roots[..i] || r == roots[i]
  {
    assert roots[..i + 1] == roots[..i] + [roots[i]];
  }

  /** Where the climb from each disk ends. */
  ghost function RootsOf(w: World, disks: seq<EndDevice>): (roots: seq<Option<Controller>>)
    requires Ranked(w) && forall d :: d in disks ==> d.m_pPort in w.rank
    reads w.rank.Keys, w.devices, set d | d in disks
    ensures |roots| == |disks| && forall i :: 0 <= i < |disks| ==> roots[i] == Root(w, disks[i].m_pPort)
  {
    if disks == [] then [] else
      assert disks[0] in disks;
      assert forall d :: d in disks[1..] ==> d in disks;
      [Root(w, disks[0].m_pPort)] + RootsOf(w, disks[1..])
  }

  /** The controller lists the array or volume if it was taken, once, and is unchanged otherwise. */
  twostate predicate Took(c: Controller, kind: RaidKind, new raid: Raid, taken: bool)
    reads c
  {
    && old(allocated(c)) && c.lists == old(c.lists)
    && forall k: RaidKind ::
         c.Raids(k) == if k == kind && taken then WithRaid(old(c.Raids(k)), raid) else old(c.Raids(k))
  }

  // ---- lists without duplicates ----

  function WithRaid(list: seq<Raid>, raid: Raid): seq<Raid> {
    if raid in list then list else list + [raid]
  }

  lemma WithRaidAgain(raid: Raid)
    ensures forall list: seq<Raid> :: WithRaid(WithRaid(list, raid), raid) == WithRaid(list, raid)
  {
  }

  ghost predicate NoDuplicates(list: seq<Raid>) {
    forall i, j :: 0 <= i < j < |list| ==> list[i] != list[j]
  }

  lemma WithRaidOnce(list: seq<Raid>, raid: Raid)
    requires NoDuplicates(list)
    ensures NoDuplicates(WithRaid(list, raid)) && raid in WithRaid(list, raid)
    ensures forall x :: x != raid ==> (x in WithRaid(list, raid) <==> x in list)
  {
  }

  lemma {:induction false} OnceIfPresent(list: seq<Raid>, raid: Raid)
    requires NoDuplicates(list)
    ensures multiset(list)[raid] == if raid in list then 1 else 0
  {
    if list == [] {
    } else {
      OnceIfPresent(list[1..], raid);
      assert list == [list[0]] + list[1..];
      if list[0] == raid {
        assert raid !in list[1..];
      }
    }
  }

  // ---- the climb ----

  /** Ports that may be climbed through, ranked by the number of links above them, and the devices between. */
  datatype World = World(rank: map<Port, nat>, devices: set<RoutingDevice>)

  /** Every upward link stays in the world and leads to a port of smaller rank. */
  ghost predicate Ranked(w: World)
    reads w.rank.Keys, w.devices
  {
    forall p :: p in w.rank ==>
      && (p.isRemote && p.m_pRemotePort != null ==> p.m_pRemotePort in w.rank && w.rank[p.m_pRemotePort] < w.rank[p])
      && (!p.isRemote && p.m_pParent.OfRoutingDevice? ==>
            && p.m_pParent.device in w.devices && p.m_pParent.device.m_pSubtractivePort in w.rank
            && w.rank[p.m_pParent.device.m_pSubtractivePort] < w.rank[p])
  }

  /** The controller at the top of the climb, if the chain of ports is not broken. */
  ghost function Root(w: World, p: Port): Option<Controller>
    requires Ranked(w) && p in w.rank
    reads w.rank.Keys, w.devices
    decreases w.rank[p]
  {
    if p.isRemote then
      if p.m_pRemotePort == null then None else Root(w, p.m_pRemotePort)
    else
      match p.m_pParent
      case OfController(c) => Some(c)
      case OfRoutingDevice(r) => Root(w, r.m_pSubtractivePort)
      case _ => None
  }

  /** One link of the climb. */
  ghost function Above(p: Port): Option<Port>
    reads p, if p.m_pParent.OfRoutingDevice? then {p.m_pParent.device} else {}
  {
    if p.isRemote then
      if p.m_pRemotePort == null then None else Some(p.m_pRemotePort)
    else
      match p.m_pParent
      case OfRoutingDevice(r) => Some(r.m_pSubtractivePort)
      case _ => None
  }

  ghost predicate EndsWithin(p: Port, n: nat)
    reads *
    decreases n
  {
    Above(p).None? || (n > 0 && EndsWithin(Above(p).value, n - 1))
  }

  ghost predicate RanksPort(w: World, p: Port)
    reads w.rank.Keys, w.devices
  {
    Ranked(w) && p in w.rank
  }

  /** A port lies in a ranked world exactly when the climb from it ends. */
  lemma ClimbEndsIffRanked(p: Port)
    ensures (exists n: nat :: EndsWithin(p, n)) ==> exists w :: RanksPort(w, p)
    ensures (exists w :: RanksPort(w, p)) ==> exists n: nat :: EndsWithin(p, n)
  {
    if n: nat :| EndsWithin(p, n) {
      WorldExists(p, n);
      assert exists w :: RanksPort(w, p);
    }
    forall w | RanksPort(w, p) ensures exists n: nat :: EndsWithin(p, n) {
      RankBoundsClimb(w, p);
    }
  }

  lemma {:induction false} RankBoundsClimb(w: World, p: Port)
    requires Ranked(w) && p in w.rank
    ensures EndsWithin(p, w.rank[p])
    decreases w.rank[p]
  {
    if Above(p).None? {
    } else {
      RankBoundsClimb(w, Above(p).value);
      EndsSooner(Above(p).value, w.rank[Above(p).value], w.rank[p] - 1);
    }
  }

  lemma {:induction false} EndsSooner(p: Port, n: nat, m: nat)
    requires EndsWithin(p, n) && n <= m
    ensures EndsWithin(p, m)
    decreases n
  {
    if Above(p).None? {
    } else {
      EndsSooner(Above(p).value, n - 1, m - 1);
    }
  }

  lemma {:induction false} WorldExists(p: Port, n: nat)
    requires EndsWithin(p, n)
    ensures exists w :: RanksPort(w, p) && forall q :: q in w.rank ==> w.rank[q] <= n
    decreases n
  {
    if Above(p).None? {
      var w := World(map[p := 0], {});
      assert RanksPort(w, p);
    } else {
      var q := Above(p).value;
      WorldExists(q, n - 1);
      var w :| RanksPort(w, q) && forall q :: q in w.rank ==> w.rank[q] <= n - 1;
      if p !in w.rank {
        var v := World(w.rank[p := n], w.devices + if p.isRemote then {} else {p.m_pParent.device});
        assert RanksPort(v, p);
      } else {
        assert RanksPort(w, p);
      }
    }
  }

  /** Where the climb ends does not depend on the ranks. */
  lemma {:induction false} RootIsDetermined(v: World, w: World, p: Port)
    requires Ranked(v) && Ranked(w) && p in v.rank && p in w.rank
    ensures Root(v, p) == Root(w, p)
    decreases w.rank[p]
  {
    if Above(p).None? {
    } else {
      RootIsDetermined(v, w, Above(p).value);
    }
  }

  ghost function Reach(root: Option<Controller>): set<Controller> {
    match root case None => {} case Some(c) => {c}
  }

  /** The controller reached, if any, now lists the array or volume, once. */
  twostate predicate Listed(root: Option<Controller>, kind: RaidKind, new raid: Raid)
    reads Reach(root)
  {
    root.Some? ==> Took(root.value, kind, raid, true)
  }

  twostate predicate Unlisted(root: Option<Controller>)
    reads Reach(root)
  {
    match root
    case None => true
    case Some(c) => old(allocated(c)) && forall k: RaidKind :: c.Raids(k) == old(c.Raids(k))
  }

  /** Some disk's climb ends at the controller. */
  ghost predicate IsAbove(w: World, c: Controller, disks: seq<EndDevice>)
    requires Ranked(w) && forall d :: d in disks ==> d.m_pPort in w.rank
    reads w.rank.Keys, w.devices, set d | d in disks
  {
    exists d :: d in disks && Root(w, d.m_pPort) == Some(c)
  }

  ghost function Reached(w: World, disks: seq<EndDevice>): set<Controller>
    requires Ranked(w) && forall d :: d in disks ==> d.m_pPort in w.rank
    reads w.rank.Keys, w.devices, set d | d in disks
  {
    set d | d in disks && Root(w, d.m_pPort).Some? :: Root(w, d.m_pPort).value
  }

  lemma ReachedContains(w: World, disks: seq<EndDevice>, d: EndDevice)
    requires Ranked(w) && (forall d :: d in disks ==> d.m_pPort in w.rank) && d in disks
    ensures Reach(Root(w, d.m_pPort)) <= Reached(w, disks)
  {
  }

  // ---- caches against the tree ----

  ghost function Nodes(t: DeviceTree): set<RoutingDevice>
    decreases t, 0
  {
    {t.device} + ForestNodes(t.kids)
  }

  ghost function ForestNodes(ts: seq<DeviceTree>): set<RoutingDevice> {
    if ts == [] then {} else Nodes(ts[0]) + ForestNodes(ts[1..])
  }

  /** At every device of the tree the four containers describe what lies below it. */
  ghost predicate Cached(t: DeviceTree)
    reads Nodes(t)
    decreases t, 0
  {
    t.device.lists == ListsOf(t.ends, t.kids) && ForestCached(t.kids)
  }

  ghost predicate ForestCached(ts: seq<DeviceTree>)
    reads ForestNodes(ts)
    decreases ts
  {
    ts == [] || (Cached(ts[0]) && ForestCached(ts[1..]))
  }

  /** At every device of the tree the directly attached devices are those of the tree. */
  ghost predicate Shaped(t: DeviceTree)
    reads Nodes(t)
    decreases t, 0
  {
    t.device.lists.endsDirect == t.ends && t.device.lists.devicesDirect == Roots(t.kids) && ForestShaped(t.kids)
  }

  ghost predicate ForestShaped(ts: seq<DeviceTree>)
    reads ForestNodes(ts)
    decreases ts
  {
    ts == [] || (Shaped(ts[0]) && ForestShaped(ts[1..]))
  }

  lemma {:induction false} CachedIsShaped(ts: seq<DeviceTree>)
    requires ForestCached(ts)
    ensures ForestShaped(ts)
    decreases ts
  {
    if ts == [] {
    } else {
      CachedIsShaped(ts[0].kids);
      CachedIsShaped(ts[1..]);
    }
  }

  lemma {:induction false} ForestShapedAt(ts: seq<DeviceTree>, i: nat)
    requires ForestShaped(ts) && i < |ts|
    ensures Shaped(ts[i])
  {
    if i == 0 {
    } else {
      ForestShapedAt(ts[1..], i - 1);
    }
  }

  twostate lemma {:induction false} ShapedKept(t: DeviceTree)
    requires forall d :: d in Nodes(t) ==> old(allocated(d)) && d.lists == old(d.lists)
    ensures old(Shaped(t)) ==> Shaped(t)
    decreases t, 0
  {
    ForestShapedKept(t.kids);
  }

  twostate lemma {:induction false} ForestShapedKept(ts: seq<DeviceTree>)
    requires forall d :: d in ForestNodes(ts) ==> old(allocated(d)) && d.lists == old(d.lists)
    ensures old(ForestShaped(ts)) ==> ForestShaped(ts)
    decreases ts
  {
    if ts == [] {
    } else {
      ShapedKept(ts[0]);
      ForestShapedKept(ts[1..]);
    }
  }

  lemma {:induction false} NodesAllocated(ts: seq<DeviceTree>)
    ensures forall d :: d in ForestNodes(ts) ==> allocated(d)
    decreases ts
  {
    if ts == [] {
    } else {
      var d := ts[0].device;
      assert allocated(d);
      assert Nodes(ts[0]) == {d} + ForestNodes(ts[0].kids);
      NodesAllocated(ts[0].kids);
      NodesAllocated(ts[1..]);
    }
  }

  /** Caches are kept as long as no device of the tree changes. */
  twostate lemma {:induction false} CachedKept(t: DeviceTree)
    requires forall d :: d in Nodes(t) ==> old(allocated(d)) && d.lists == old(d.lists)
    ensures old(Cached(t)) ==> Cached(t)
    decreases t, 0
  {
    ForestCachedKept(t.kids);
  }

  twostate lemma {:induction false} ForestCachedKept(ts: seq<DeviceTree>)
    requires forall d :: d in ForestNodes(ts) ==> old(allocated(d)) && d.lists == old(d.lists)
    ensures old(ForestCached(ts)) ==> ForestCached(ts)
    decreases ts
  {
    if ts == [] {
    } else {
      CachedKept(ts[0]);
      ForestCachedKept(ts[1..]);
    }
  }

  /** Bottom-up attaching keeps every cache right: as long as the devices below do not change, receiving a
      finished item makes the lists of any device or controller describe what is then below it. */
  twostate lemma AttachKeepsCaches(new ends: seq<EndDevice>, kids: seq<DeviceTree>,
                                   new item: Item<RoutingDevice, EndDevice>)
    requires old(ForestCached(kids)) && (item.Branch? ==> Cached(item.t))
    requires forall d :: d in ForestNodes(kids) ==> old(allocated(d)) && d.lists == old(d.lists)
    ensures ForestCached(KidsWith(kids, item))
    ensures Received(ListsOf(ends, kids), item) == ListsOf(EndsWith(ends, item), KidsWith(kids, item))
  {
    ForestCachedKept(kids);
    ReceivedAgrees(ends, kids, item);
    if item.Branch? {
      CachedAppend(kids, item.t);
    }
  }

  lemma {:induction false} CachedAppend(ts: seq<DeviceTree>, t: DeviceTree)
    requires ForestCached(ts) && Cached(t)
    ensures ForestCached(ts + [t])
  {
    if ts == [] {
      assert ForestCached([t][1..]);
    } else {
      assert (ts + [t])[1..] == ts[1..] + [t];
      CachedAppend(ts[1..], t);
    }
  }
}
