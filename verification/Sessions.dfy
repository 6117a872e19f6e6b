/** Sessions, the objects they register, and opening and closing them. */
module Sessions {
  import opened Wrappers
  import opened Ledger
  import opened Registry

  datatype Kind = ControllerKind | ArrayKind | EnclosureKind | RaidInfoKind | PhyKind | PortKind | VolumeKind
                | EndDeviceKind | RoutingDeviceKind

  datatype Status = StatusOk | InvalidParameter | InvalidHandle

  /** `Container::find`: the first object with the handle. */
  method Find(list: seq<Object>, handle: nat) returns (r: Option<Object>)
    ensures r.Some? ==> r.value in list && r.value.m_handle == handle
    ensures r.None? ==> forall o :: o in list ==> o.m_handle != handle
  {
    for i := 0 to |list|
      invariant forall k :: 0 <= k < i ==> list[k].m_handle != handle
    {
      if list[i].m_handle == handle {
        return Some(list[i]);
      }
    }
    return None;
  }

  /** The order in which the destructor releases the lists. */
  const RELEASE_ORDER: seq<Kind> := [ControllerKind, ArrayKind, EnclosureKind, RaidInfoKind, PhyKind, PortKind,
                                    VolumeKind, EndDeviceKind, RoutingDeviceKind]

  /** The order in which `getObject` searches them. */
  const SEARCH_ORDER: seq<Kind> := [EndDeviceKind, ArrayKind, EnclosureKind, PhyKind, VolumeKind, PortKind,
                                   RoutingDeviceKind, RaidInfoKind, ControllerKind]

  lemma OrdersAreComplete(kind: Kind)
    ensures kind in RELEASE_ORDER && kind in SEARCH_ORDER
  {
    assert kind == RELEASE_ORDER[0] || kind == RELEASE_ORDER[1] || kind == RELEASE_ORDER[2] || kind == RELEASE_ORDER[3]
        || kind == RELEASE_ORDER[4] || kind == RELEASE_ORDER[5] || kind == RELEASE_ORDER[6] || kind == RELEASE_ORDER[7]
        || kind == RELEASE_ORDER[8];
    assert kind == SEARCH_ORDER[0] || kind == SEARCH_ORDER[1] || kind == SEARCH_ORDER[2] || kind == SEARCH_ORDER[3]
        || kind == SEARCH_ORDER[4] || kind == SEARCH_ORDER[5] || kind == SEARCH_ORDER[6] || kind == SEARCH_ORDER[7]
        || kind == SEARCH_ORDER[8];
  }

  ghost predicate InLists(lists: Kind -> seq<Object>, o: Object) {
    exists kind: Kind :: o in lists(kind)
  }

  /** The lists hold exactly the owned objects. */
  ghost predicate ListsOwn(lists: Kind -> seq<Object>, owned: set<Object>) {
    && (forall kind: Kind :: AllIn(lists(kind), owned))
    && (forall o :: o in owned ==> InLists(lists, o))
  }

  ghost predicate AllIn(list: seq<Object>, owned: set<Object>) {
    forall o :: o in list ==> o in owned
  }

  function Extended(lists: Kind -> seq<Object>, kind: Kind, o: Object): (r: Kind -> seq<Object>)
    ensures forall k: Kind :: r(k) == if k == kind then lists(k) + [o] else lists(k)
  {
    k => if k == kind then lists(k) + [o] else lists(k)
  }

  lemma AllInMore(list: seq<Object>, owned: set<Object>, o: Object)
    requires AllIn(list, owned)
    ensures AllIn(list, owned + {o}) && AllIn(list + [o], owned + {o})
  {
  }

  lemma StillInLists(lists: Kind -> seq<Object>, kind: Kind, o: Object, x: Object)
    requires InLists(lists, x) || x == o
    ensures InLists(Extended(lists, kind, o), x)
  {
    var r := Extended(lists, kind, o);
    if x == o {
      assert o in r(kind);
    } else {
      var k: Kind :| x in lists(k);
      assert x in r(k);
    }
  }

  lemma ExtendedOwns(lists: Kind -> seq<Object>, owned: set<Object>, kind: Kind, o: Object)
    requires ListsOwn(lists, owned)
    ensures ListsOwn(Extended(lists, kind, o), owned + {o})
  {
    hide AllIn, InLists;
    var r := Extended(lists, kind, o);
    forall k: Kind ensures AllIn(r(k), owned + {o}) {
      AllInMore(lists(k), owned, o);
    }
    forall x | x in owned + {o} ensures InLists(r, x) {
      StillInLists(lists, kind, o, x);
    }
  }

  class Session {
    /** The `Object` part of the session, which carries the session's own handle. */
    const base: Object
    /** The nine containers, by the kind of object they hold. */
    var m_Lists: Kind -> seq<Object>
    ghost var owned: set<Object>

    constructor ()
      ensures fresh(base) && base.m_handle == NULL_HANDLE && Valid() && owned == {}
    {
      base := new Object();
      m_Lists := kind => [];
      owned := {};
    }

    ghost predicate Holds(o: Object)
      reads this
    {
      InLists(m_Lists, o)
    }

    ghost predicate Valid()
      reads this
    {
      ListsOwn(m_Lists, owned)
    }

    /** The nine `add*` methods: register, then append whether or not the registry took the object. */
    method Add(kind: Kind, o: Object, registry: HandleManager)
      requires Valid() && registry.Valid() && registry.Consistent(o)
      modifies this, registry, o
      ensures Valid() && registry.Valid() && registry.Consistent(o)
      ensures owned == old(owned) + {o} && m_Lists(kind) == old(m_Lists)(kind) + [o]
      ensures forall k: Kind :: k != kind ==> m_Lists(k) == old(m_Lists)(k)
      ensures if old(o.m_handle) != NULL_HANDLE || MAX_HANDLE in old(registry.m_objects)
              then registry.m_objects == old(registry.m_objects) && o.m_handle == old(o.m_handle)
              else
                && IsUnique(old(registry.m_objects.Keys), NULL_HANDLE, o.m_handle)
                && registry.m_objects == old(registry.m_objects)[o.m_handle := o]
    {
      hide IsUnique;
      var handle, inserted := registry.Insert(o);
      Append(kind, o);
    }

    /** `Container::add` on the list of one kind. */
    method Append(kind: Kind, o: Object)
      requires Valid()
      modifies this
      ensures Valid() && owned == old(owned) + {o} && m_Lists(kind) == old(m_Lists)(kind) + [o]
      ensures forall k: Kind :: k != kind ==> m_Lists(k) == old(m_Lists)(k)
    {
      hide ListsOwn;
      ExtendedOwns(m_Lists, owned, kind, o);
      m_Lists := Extended(m_Lists, kind, o);
      owned := owned + {o};
    }

    /** The destructor: releases list after list. */
    method Destroy(registry: HandleManager)
      requires Valid() && registry.Valid() && forall o :: o in owned ==> registry.Consistent(o)
      modifies registry, owned
      ensures registry.Valid()
      ensures forall o :: o in owned ==> o.m_handle == NULL_HANDLE
      ensures registry.m_objects == Without(old(registry.m_objects), owned)
    {
      ghost var gone: set<Object> := {};
      for i := 0 to |RELEASE_ORDER|
        invariant registry.Valid() && gone <= owned
        invariant forall o :: o in owned ==> registry.Consistent(o)
        invariant forall o :: o in gone ==> o.m_handle == NULL_HANDLE
        invariant forall k, o :: 0 <= k < i && o in m_Lists(RELEASE_ORDER[k]) ==> o in gone
        invariant registry.m_objects == Without(old(registry.m_objects), gone)
      {
        var list := m_Lists(RELEASE_ORDER[i]);
        registry.RemoveList(list);
        gone := gone + set o | o in list;
      }
      forall o | o in owned ensures o in gone {
        var kind: Kind :| o in m_Lists(kind);
        OrdersAreComplete(kind);
      }
      assert gone == owned;
    }

    /** What `getObject` may answer: the session itself for the null handle, an owned object with the handle, or
        nothing if there is none. */
    ghost predicate Answers(handle: nat, r: Option<Object>)
      reads this, owned
    {
      if handle == NULL_HANDLE then r == Some(base)
      else if r.Some? then r.value in owned && r.value.m_handle == handle
      else forall o :: o in owned ==> o.m_handle != handle
    }

    /** `getObject`: the session itself for the null handle, else the first of nine searches that hits. */
    method GetObject(handle: nat) returns (r: Option<Object>)
      requires Valid()
      ensures Answers(handle, r)
    {
      if handle == NULL_HANDLE {
        return Some(base);
      }
      for i := 0 to |SEARCH_ORDER|
        invariant forall k, o :: 0 <= k < i && o in m_Lists(SEARCH_ORDER[k]) ==> o.m_handle != handle
      {
        r := Find(m_Lists(SEARCH_ORDER[i]), handle);
        if r.Some? {
          return;
        }
      }
      forall o | o in owned ensures o.m_handle != handle {
        var kind: Kind :| o in m_Lists(kind);
        OrdersAreComplete(kind);
      }
      return None;
    }
  }

  // ---- what ties the objects to the ledger ----

  /** A ledger that agrees with the registry and with the handles its objects carry. */
  ghost predicate Mirrors(registry: HandleManager, w: Ledger<Object>)
    reads registry, w.handle.Keys
  {
    w.registry == registry.m_objects && forall o :: o in w.handle ==> w.handle[o] == o.m_handle
  }

  /** The session manager's entries are the open sessions. */
  ghost predicate Managed(manager: HandleManager, sessions: map<nat, Session>, w: Ledger<Object>)
    reads manager, manager.m_objects.Values
  {
    && manager.Valid() && manager.m_objects.Keys == sessions.Keys == w.live
    && forall h :: h in sessions ==> sessions[h].base == manager.m_objects[h] && sessions[h].base !in w.handle
  }

  /** Each open session owns what was created for it. */
  ghost predicate Owns(sessions: map<nat, Session>, w: Ledger<Object>)
    reads sessions.Values
  {
    forall h :: h in sessions ==> sessions[h].Valid() && sessions[h].owned == Owned(w.home, h)
  }

  lemma BalancedMirror(registry: HandleManager, w: Ledger<Object>)
    requires Mirrors(registry, w) && Balanced(w)
    ensures registry.Valid() && registry.m_objects == w.registry && registry.m_objects.Values <= w.handle.Keys
    ensures forall o :: o in w.handle ==> registry.Consistent(o)
    ensures w.handle.Keys == w.home.Keys
  {
  }

  /** No session's own handle is carried by one of the sessions' objects. */
  lemma BasesApart(manager: HandleManager, sessions: map<nat, Session>, w: Ledger<Object>)
    requires Managed(manager, sessions, w)
    ensures manager.m_objects.Values !! w.handle.Keys
    ensures manager.Valid() && manager.m_objects.Keys == sessions.Keys == w.live
    ensures forall h :: h in sessions ==> manager.m_objects[h] == sessions[h].base
  {
  }

  lemma SameHomes(manager: HandleManager, sessions: map<nat, Session>, w: Ledger<Object>, w': Ledger<Object>)
    requires Managed(manager, sessions, w) && Owns(sessions, w)
    requires w'.live == w.live && w'.home == w.home && w'.handle.Keys == w.handle.Keys
    ensures Managed(manager, sessions, w') && Owns(sessions, w')
  {
  }

  lemma ClosedOwns(sessions: map<nat, Session>, w: Ledger<Object>, h: nat)
    requires Owns(sessions, w)
    ensures Owns(sessions - {h}, Closed(w, h))
    ensures h in sessions ==> sessions[h].Valid() && sessions[h].owned == Owned(w.home, h)
  {
    assert forall k :: k != h ==> Owned(Closed(w, h).home, k) == Owned(w.home, k);
  }

  /** An opened session owns exactly its discovered objects, and takes none from the others. */
  lemma OpenedOwns(sessions: map<nat, Session>, w: Ledger<Object>, u: Ledger<Object>, own: nat, session: Session)
    requires Owns(sessions, w) && Closed(u, own) == w
    requires session.Valid() && session.owned == Owned(u.home, own)
    ensures Owns(sessions[own := session], u)
  {
    assert w.home == u.home - Owned(u.home, own);
    assert forall k :: k != own ==> Owned(u.home, k) == Owned(w.home, k);
  }

  /** The session manager takes a new session in. */
  method Enter(manager: HandleManager, sessions: map<nat, Session>, ghost w: Ledger<Object>, session: Session)
    returns (own: nat, inserted: bool)
    requires Managed(manager, sessions, w) && session.base !in w.handle && session.base.m_handle == NULL_HANDLE
    modifies manager, session.base
    ensures inserted <==> MAX_HANDLE !in sessions
    ensures !inserted ==> Managed(manager, sessions, w)
    ensures inserted ==>
              && own !in w.live && NULL_HANDLE < own <= MAX_HANDLE && IsUnique(w.live, NULL_HANDLE, own)
              && Managed(manager, sessions[own := session], Started(w, own))
  {
    hide IsUnique;
    own, inserted := manager.Insert(session.base);
  }

  /** The session manager lets go of one session. */
  method Forget(manager: HandleManager, sessions: map<nat, Session>, ghost w: Ledger<Object>, handle: nat)
    returns (removed: Option<Object>)
    requires Managed(manager, sessions, w)
    modifies manager, if handle in manager.m_objects then {manager.m_objects[handle]} else {}
    ensures removed.Some? <==> handle in sessions
    ensures removed.None? ==> Managed(manager, sessions, w)
    ensures removed.Some? ==> Managed(manager, sessions - {handle}, Closed(w, handle))
  {
    removed := manager.Remove(handle);
    if removed.None? {
      assert manager.m_objects == old(manager.m_objects);
    }
  }

  /** Destroying a session takes its handles out of the registry. */
  method Release(registry: HandleManager, ghost w: Ledger<Object>, handle: nat, session: Session)
    requires Mirrors(registry, w) && Balanced(w) && session.Valid() && session.owned == Owned(w.home, handle)
    modifies registry, session.owned
    ensures Mirrors(registry, Closed(w, handle)) && Balanced(Closed(w, handle))
    ensures registry.m_objects == Without(old(registry.m_objects), old(session.owned))
    ensures forall o :: o in old(session.owned) ==> o.m_handle == NULL_HANDLE
  {
    hide Balanced;
    BalancedMirror(registry, w);
    ClosedKeepsBalance(w, handle);
    session.Destroy(registry);
  }

  /** The session manager drops a session, which destroys it. */
  method Drop(registry: HandleManager, manager: HandleManager, sessions: map<nat, Session>, ghost w: Ledger<Object>,
              handle: nat) returns (found: bool)
    requires registry != manager && Managed(manager, sessions, w) && Mirrors(registry, w) && Balanced(w)
    requires handle in sessions ==> sessions[handle].Valid() && sessions[handle].owned == Owned(w.home, handle)
    modifies registry, manager,
             if handle in sessions then {sessions[handle].base} + sessions[handle].owned else {}
    ensures found <==> handle in sessions
    ensures var w' := if found then Closed(w, handle) else w;
            Managed(manager, sessions - {handle}, w') && Mirrors(registry, w') && Balanced(w')
    ensures found ==>
              && registry.m_objects == Without(old(registry.m_objects), old(sessions[handle].owned))
              && forall o :: o in old(sessions[handle].owned) ==> o.m_handle == NULL_HANDLE
    ensures !found ==> registry.m_objects == old(registry.m_objects)
  {
    hide Balanced, Managed, Mirrors, Closed, Owned;
    BasesApart(manager, sessions, w);
    OwnedHaveHandles(w, handle);
    var removed := Forget(manager, sessions, w, handle);
    found := removed.Some?;
    if found {
      Release(registry, w, handle, sessions[handle]);
    } else {
      assert sessions - {handle} == sessions;
    }
  }

  /** A session whose discovery failed disappears again, and its handles with it. */
  method RollBack(registry: HandleManager, manager: HandleManager, sessions: map<nat, Session>, ghost w: Ledger<Object>,
                  ghost u: Ledger<Object>, own: nat, session: Session)
    requires registry != manager && own !in sessions && Closed(u, own) == w
    requires Managed(manager, sessions[own := session], u)
    requires Mirrors(registry, u) && Balanced(u) && session.Valid() && session.owned == Owned(u.home, own)
    modifies registry, manager, session.base, session.owned
    ensures Managed(manager, sessions, w) && Mirrors(registry, w)
  {
    hide Balanced, Managed, Mirrors, Closed, Owned;
    var dropped := Drop(registry, manager, sessions[own := session], u, own);
    assert sessions[own := session] - {own} == sessions;
  }

  lemma OwnedHaveHandles(w: Ledger<Object>, h: nat)
    requires Balanced(w)
    ensures Owned(w.home, h) <= w.handle.Keys
  {
  }

  /** The registry's part in `Array::remove`: the array loses its handle but stays in its session's list. */
  method Unregister(registry: HandleManager, ghost w: Ledger<Object>, raid: Object)
    requires Mirrors(registry, w) && Balanced(w) && raid in w.home
    modifies registry, raid
    ensures raid in w.handle && Mirrors(registry, Unregistered(w, raid)) && Balanced(Unregistered(w, raid))
    ensures raid.m_handle == NULL_HANDLE && registry.m_objects == old(registry.m_objects) - {old(raid.m_handle)}
  {
    hide Balanced;
    BalancedMirror(registry, w);
    UnregisteredKeepsBalance(w, raid);
    var removed := registry.Remove(raid.m_handle);
  }

  /** One `add*` call as a step of the ledger. */
  method AddDevice(registry: HandleManager, ghost w: Ledger<Object>, session: Session, ghost own: nat, kind: Kind,
                   o: Object)
    returns (ghost u: Ledger<Object>)
    requires Balanced(w) && Mirrors(registry, w) && session.Valid()
    requires o !in w.handle ==> o.m_handle == NULL_HANDLE
    modifies session, registry, o
    ensures session.Valid() && session.owned == old(session.owned) + {o}
    ensures session.m_Lists(kind) == old(session.m_Lists)(kind) + [o]
    ensures forall k: Kind :: k != kind ==> session.m_Lists(k) == old(session.m_Lists)(k)
    ensures Added(w, own, o, u) && Mirrors(registry, u) && u.handle.Keys == w.handle.Keys + {o}
  {
    hide Balanced, IsUnique;
    BalancedMirror(registry, w);
    session.Add(kind, o, registry);
    AfterAddIsAdded(w, own, o, registry.m_objects, o.m_handle);
    u := AfterAdd(w, own, o, registry.m_objects, o.m_handle);
  }

  /** One `add*` call on a session that is open already; the others are not disturbed. */
  method AddToOpen(registry: HandleManager, manager: HandleManager, sessions: map<nat, Session>,
                   ghost w: Ledger<Object>, own: nat, kind: Kind, o: Object)
    returns (ghost u: Ledger<Object>)
    requires registry != manager && Managed(manager, sessions, w) && Owns(sessions, w) && own in sessions
    requires Mirrors(registry, w) && Balanced(w)
    requires if o in w.home then w.home[o] == own else o.m_handle == NULL_HANDLE && o !in manager.m_objects.Values
    modifies sessions[own], registry, o
    ensures Managed(manager, sessions, u) && Owns(sessions, u) && Mirrors(registry, u) && Added(w, own, o, u)
    ensures forall t :: t in sessions && t != own ==> Undisturbed(sessions[t])
  {
    hide Mirrors, Added, IsUnique, Balanced, Owned;
    BasesApart(manager, sessions, w);
    BalancedMirror(registry, w);
    SessionsApart(manager, sessions, w, own);
    NotOwned(sessions, w, own, o);
    u := AddDevice(registry, w, sessions[own], own, kind, o);
    AddedOwned(w, own, o, u);
    AddedManaged(manager, sessions, w, u, own, o);
  }

  twostate lemma AddedManaged(manager: HandleManager, new sessions: map<nat, Session>, new w: Ledger<Object>,
                              new u: Ledger<Object>, new own: nat, new o: Object)
    requires old(allocated(sessions))
    requires old(allocated(w))
    requires old(Managed(manager, sessions, w)) && o !in old(manager.m_objects).Values
    requires manager.m_objects == old(manager.m_objects)
    requires forall h :: h in manager.m_objects ==> manager.m_objects[h].m_handle == old(manager.m_objects[h].m_handle)
    requires u.live == w.live && u.handle.Keys == w.handle.Keys + {o}
    ensures Managed(manager, sessions, u)
  {
  }

  lemma NotOwned(sessions: map<nat, Session>, w: Ledger<Object>, own: nat, o: Object)
    requires Owns(sessions, w) && (o in w.home ==> w.home[o] == own)
    ensures forall h :: h in sessions && h != own ==> o !in sessions[h].owned
  {
  }

  /** The object of each entry is in the list of the kind it was added under, and two entries share an
      object exactly when they name the same one. */
  ghost predicate Follows(script: seq<(Kind, nat)>, objects: seq<Object>, lists: Kind -> seq<Object>) {
    && |objects| == |script|
    && (forall i :: 0 <= i < |script| ==> objects[i] in lists(script[i].0))
    && forall i, j :: 0 <= i < |script| && 0 <= j < |script| ==>
         (objects[i] == objects[j] <==> script[i].1 == script[j].1)
  }

  /** Each entry's object is the named device, and is in the list of the kind it was added under. */
  ghost predicate Places(script: seq<(Kind, nat)>, devices: seq<Object>, objects: seq<Object>,
                         lists: Kind -> seq<Object>)
  {
    |objects| == |script| && forall i :: 0 <= i < |script| ==>
      script[i].1 < |devices| && objects[i] == devices[script[i].1] && objects[i] in lists(script[i].0)
  }

  lemma PlacesNothing(script: seq<(Kind, nat)>, devices: seq<Object>, lists: Kind -> seq<Object>)
    requires script == []
    ensures Places(script, devices, [], lists)
  {
  }

  lemma PlacesNext(script: seq<(Kind, nat)>, i: nat, devices: seq<Object>, objects: seq<Object>,
                   lists: Kind -> seq<Object>, lists': Kind -> seq<Object>)
    requires i < |script| && script[i].1 < |devices| && Places(script[..i], devices, objects, lists)
    requires lists'(script[i].0) == lists(script[i].0) + [devices[script[i].1]]
    requires forall k: Kind :: k != script[i].0 ==> lists'(k) == lists(k)
    ensures Places(script[..i + 1], devices, objects + [devices[script[i].1]], lists')
  {
    forall k | 0 <= k < i ensures objects[k] in lists'(script[k].0) {
      assert script[..i][k] == script[k];
    }
  }

  lemma PlacesFollows(script: seq<(Kind, nat)>, devices: seq<Object>, objects: seq<Object>,
                      lists: Kind -> seq<Object>)
    requires Places(script, devices, objects, lists)
    requires forall i, j :: 0 <= i < j < |devices| ==> devices[i] != devices[j]
    ensures Follows(script, objects, lists)
  {
  }

  /** `Session::initialize`, as far as the registry can tell: an arbitrary script creates `created` objects
      and adds some of them to the session's lists, perhaps more than once. */
  method Initialize(registry: HandleManager, ghost w: Ledger<Object>, session: Session, ghost own: nat, created: nat,
                    script: seq<(Kind, nat)>)
    returns (ghost objects: seq<Object>, ghost states: seq<Ledger<Object>>)
    requires Balanced(w) && Mirrors(registry, w) && session.Valid() && session.owned == {}
    requires own !in w.live && NULL_HANDLE < own <= MAX_HANDLE
    requires forall i :: 0 <= i < |script| ==> script[i].1 < created
    modifies session, registry
    ensures session.Valid() && session.owned == (set o | o in objects) && forall o :: o in objects ==> fresh(o)
    ensures Follows(script, objects, session.m_Lists)
    ensures Discovery(w, own, objects, states) && |states| == |objects| + 1
    ensures var u := states[|objects|];
            && Mirrors(registry, u) && Balanced(u) && Closed(u, own) == w && session.owned == Owned(u.home, own)
            && u.live == w.live + {own} && forall o :: o in u.handle ==> o in w.handle || o in objects
  {
    hide Balanced, IsUnique, Owned, Closed, Added, Mirrors, Discovery, Session.Valid, Follows, Places;
    MirrorsStarted(registry, w, own);
    DiscoveryStarts(w, own);
    var devices := CreateObjects(created);
    objects, states := [], [Started(w, own)];
    PlacesNothing(script[..0], devices, session.m_Lists);
    for i := 0 to |script|
      invariant session.Valid() && session.owned == set o | o in objects
      invariant |objects| == i && Places(script[..i], devices, objects, session.m_Lists)
      invariant |states| == |objects| + 1 && Discovery(w, own, objects, states) && Mirrors(registry, states[|objects|])
      invariant forall o :: o in objects ==> o in devices && o in states[|objects|].handle
      invariant forall o :: o in devices && o !in objects ==>
                  o.m_handle == NULL_HANDLE && o !in states[|objects|].handle
      invariant forall o :: o in states[|objects|].handle ==> o in w.handle || o in objects
    {
      var device := devices[script[i].1];
      assert device in devices;
      DiscoveryAdds(w, own, objects, states, |objects|);
      ghost var before := session.m_Lists;
      ghost var u := AddDevice(registry, states[|objects|], session, own, script[i].0, device);
      PlacesNext(script, i, devices, objects, before, session.m_Lists);
      DiscoveryExtends(w, own, objects, states, device, u);
      objects := objects + [device];
      states := states + [u];
    }
    DiscoveryAdds(w, own, objects, states, |objects|);
    assert script[..|script|] == script;
    PlacesFollows(script, devices, objects, session.m_Lists);
  }

  /** The discovery of a session that the manager has just taken in. */
  method Begin(registry: HandleManager, manager: HandleManager, sessions: map<nat, Session>, ghost w: Ledger<Object>,
               own: nat, session: Session, created: nat, script: seq<(Kind, nat)>)
    returns (ghost objects: seq<Object>, ghost states: seq<Ledger<Object>>)
    requires Balanced(w) && Mirrors(registry, w) && session.Valid() && session.owned == {}
    requires own !in w.live && NULL_HANDLE < own <= MAX_HANDLE && registry != manager
    requires Managed(manager, sessions[own := session], Started(w, own))
    requires forall i :: 0 <= i < |script| ==> script[i].1 < created
    modifies session, registry
    ensures session.Valid() && Follows(script, objects, session.m_Lists) && forall o :: o in objects ==> fresh(o)
    ensures forall o :: o in session.owned ==> fresh(o)
    ensures Discovery(w, own, objects, states) && |states| == |objects| + 1
    ensures var u := states[|objects|];
            && Mirrors(registry, u) && Balanced(u) && Closed(u, own) == w && session.owned == Owned(u.home, own)
            && u.live == w.live + {own} && Managed(manager, sessions[own := session], u)
  {
    hide Balanced, Discovery, Owned, Closed, Mirrors, Follows;
    objects, states := Initialize(registry, w, session, own, created, script);
    StillManaged(manager, sessions[own := session], Started(w, own), states[|objects|], objects);
  }

  lemma MirrorsStarted(registry: HandleManager, w: Ledger<Object>, own: nat)
    requires Mirrors(registry, w)
    ensures Mirrors(registry, Started(w, own))
  {
  }

  /** The ledger after an add that left the registry and the object's handle as given. */
  ghost function AfterAdd(w: Ledger<Object>, session: nat, o: Object, registry: map<nat, Object>, handle: nat):
    Ledger<Object>
  {
    Ledger(registry, w.handle[o := handle], w.home[o := session], w.live)
  }

  lemma AfterAddIsAdded(w: Ledger<Object>, session: nat, o: Object, registry: map<nat, Object>, handle: nat)
    requires var before := if o in w.handle then w.handle[o] else NULL_HANDLE;
             if before != NULL_HANDLE || MAX_HANDLE in w.registry then registry == w.registry && handle == before
             else IsUnique(w.registry.Keys, NULL_HANDLE, handle) && registry == w.registry[handle := o]
    ensures Added(w, session, o, AfterAdd(w, session, o, registry, handle))
  {
  }

  /** The library context: the global registry and the session manager. */
  class Context {
    const registry: HandleManager
    const m_sessions: HandleManager
    /** The session whose base the session manager holds under each handle. */
    var sessions: map<nat, Session>
    /** The abstract state, tied to the registry and the handles of its objects by `Valid`. */
    ghost var ledger: Ledger<Object>

    constructor ()
      ensures Valid() && ledger == Ledger(map[], map[], map[], {}) && fresh(registry) && fresh(m_sessions)
    {
      registry := new HandleManager();
      m_sessions := new HandleManager();
      sessions, ledger := map[], Ledger(map[], map[], map[], {});
    }

    ghost predicate Valid()
      reads this, registry, m_sessions, sessions.Values, m_sessions.m_objects.Values, ledger.handle.Keys
    {
      && registry != m_sessions && Managed(m_sessions, sessions, ledger) && Owns(sessions, ledger)
      && Mirrors(registry, ledger) && Balanced(ledger)
    }

    /** `openSession`: discovery runs an arbitrary script and then succeeds or throws. */
    method OpenSession(created: nat, script: seq<(Kind, nat)>, succeeds: bool)
      returns (handle: nat, ghost step: Step<Object>)
      requires Valid() && forall i :: 0 <= i < |script| ==> script[i].1 < created
      modifies this`sessions, this`ledger, registry, m_sessions
      ensures Valid()
      ensures handle != NULL_HANDLE <==> succeeds && MAX_HANDLE !in old(sessions)
      ensures handle == NULL_HANDLE ==>
                ledger == old(ledger) && sessions == old(sessions) && registry.m_objects == old(registry.m_objects)
      ensures handle != NULL_HANDLE ==>
                && step.Open? && step.session == handle && Next(old(ledger), step, ledger)
                && handle in sessions && fresh(sessions[handle])
                && Follows(script, step.objects, sessions[handle].m_Lists)
                && handle !in old(sessions) && sessions == old(sessions)[handle := sessions[handle]]
      ensures forall t :: t in old(sessions) ==> Undisturbed(old(sessions)[t])
    {
      hide Balanced, Discovery, Owned, Closed, Mirrors, Managed, Owns, Undisturbed, IsUnique, Session.Valid, Next,
        Follows;
      step := Close(0);
      BalancedMirror(registry, ledger);
      BasesApart(m_sessions, sessions, ledger);
      var session := new Session();
      var own, inserted := Enter(m_sessions, sessions, ledger, session);
      handle := NULL_HANDLE;
      if inserted {
        ghost var objects, states := Begin(registry, m_sessions, sessions, ledger, own, session, created, script);
        ghost var u := states[|objects|];
        if succeeds {
          OpenedOwns(sessions, ledger, u, own, session);
          step := Open(own, objects, states);
          OpenIsStep(ledger, own, objects, states);
          sessions := sessions[own := session];
          ledger := u;
          handle := own;
        } else {
          RollBack(registry, m_sessions, sessions, ledger, u, own, session);
          BalancedMirror(registry, ledger);
        }
      }
      NoneDisturbed(old(sessions));
    }

    /** `closeSession`: releases exactly the closed session's handles. */
    method CloseSession(handle: nat) returns (status: Status)
      requires Valid()
      modifies this`sessions, this`ledger, registry, m_sessions,
               if handle in sessions then {sessions[handle].base} + sessions[handle].owned else {}
      ensures Valid()
      ensures status == if handle == NULL_HANDLE then InvalidParameter
                        else if handle !in old(sessions) then InvalidHandle else StatusOk
      ensures status != StatusOk ==> ledger == old(ledger) && sessions == old(sessions)
      ensures status == StatusOk ==> Next(old(ledger), Close(handle), ledger) && sessions == old(sessions) - {handle}
      ensures status != StatusOk ==> registry.m_objects == old(registry.m_objects)
      ensures status == StatusOk ==>
                && (forall o :: o in old(sessions[handle].owned) ==> o.m_handle == NULL_HANDLE)
                && (forall h :: h in registry.m_objects <==>
                      h in old(registry.m_objects) && old(registry.m_objects)[h] !in old(sessions[handle].owned))
                && (forall h :: h in registry.m_objects ==> registry.m_objects[h] == old(registry.m_objects)[h])
      ensures forall t :: t in old(sessions) && t != handle ==> Undisturbed(old(sessions)[t])
    {
      hide Balanced, Closed, Mirrors, Managed, Owns, Owned;
      if handle == NULL_HANDLE {
        return InvalidParameter;
      }
      ClosedOwns(sessions, ledger, handle);
      BasesApart(m_sessions, sessions, ledger);
      OwnedApart(sessions, m_sessions, ledger, handle);
      var found := Drop(registry, m_sessions, sessions, ledger, handle);
      if !found {
        assert sessions - {handle} == sessions;
        return InvalidHandle;
      }
      sessions := sessions - {handle};
      ledger := Closed(ledger, handle);
      return StatusOk;
    }

    /** `addVolume` and `addArray` on a session that is open, for a new object or one of its own. */
    method AddTo(session: nat, kind: Kind, o: Object)
      requires Valid() && session in sessions
      requires if o in ledger.home then ledger.home[o] == session
               else o.m_handle == NULL_HANDLE && o !in m_sessions.m_objects.Values
      modifies this`ledger, sessions[session], registry, o
      ensures Valid() && sessions == old(sessions)
      ensures Next(old(ledger), Step.Add(session, o), ledger)
      ensures forall t :: t in sessions && t != session ==> Undisturbed(sessions[t])
    {
      hide Balanced, Mirrors, Added, Owned, Managed, Owns, Undisturbed;
      BasesApart(m_sessions, sessions, ledger);
      ghost var u := AddToOpen(registry, m_sessions, sessions, ledger, session, kind, o);
      AddedKeepsBalance(ledger, session, o, u);
      ledger := u;
    }

    /** The registry's part in `Array::remove` and `Volume::remove`. */
    method RemoveArray(raid: Object)
      requires Valid() && raid in ledger.home
      modifies this`ledger, registry, raid
      ensures Valid() && sessions == old(sessions)
      ensures Next(old(ledger), Step.Remove(raid), ledger)
      ensures raid.m_handle == NULL_HANDLE && registry.m_objects == old(registry.m_objects) - {old(raid.m_handle)}
    {
      hide Balanced, Mirrors, Managed, Owns;
      BasesApart(m_sessions, sessions, ledger);
      BalancedMirror(registry, ledger);
      Unregister(registry, ledger, raid);
      SameHomes(m_sessions, sessions, ledger, Unregistered(ledger, raid));
      ledger := Unregistered(ledger, raid);
    }
  }

  lemma OpenIsStep(w: Ledger<Object>, own: nat, objects: seq<Object>, states: seq<Ledger<Object>>)
    requires IsUnique(w.live, NULL_HANDLE, own) && own != NULL_HANDLE && Discovery(w, own, objects, states)
    requires |states| == |objects| + 1 && forall o :: o in objects ==> o !in w.home
    ensures Next(w, Open(own, objects, states), states[|objects|])
  {
    hide IsUnique;
  }

  /** Nothing that `getObject` consults has changed. */
  twostate predicate Undisturbed(s: Session)
    reads s, s.owned
  {
    s.owned == old(s.owned) && s.m_Lists == old(s.m_Lists) && forall o :: o in s.owned ==> o.m_handle == old(o.m_handle)
  }

  twostate lemma NoneDisturbed(sessions: map<nat, Session>)
    requires forall s: Session :: old(allocated(s)) ==> s.owned == old(s.owned) && s.m_Lists == old(s.m_Lists)
    requires forall o: Object :: old(allocated(o)) ==> o.m_handle == old(o.m_handle)
    ensures forall t :: t in sessions ==> Undisturbed(sessions[t])
  {
  }

  /** An undisturbed session's `getObject` has the answers it had. */
  twostate lemma AnswersKept(s: Session, handle: nat, new r: Option<Object>)
    requires old(allocated(r))
    requires Undisturbed(s)
    ensures s.Answers(handle, r) <==> old(s.Answers(handle, r))
  {
  }

  lemma OwnedApart(sessions: map<nat, Session>, manager: HandleManager, w: Ledger<Object>, own: nat)
    requires Managed(manager, sessions, w) && Owns(sessions, w) && Balanced(w)
    ensures forall h :: h in sessions && h != own && own in sessions ==>
              sessions[h].owned !! sessions[own].owned + {sessions[own].base}
  {
    forall h | h in sessions && h != own && own in sessions
      ensures sessions[h].owned !! sessions[own].owned + {sessions[own].base}
    {
      OwnedHaveHandles(w, h);
    }
  }

  lemma SessionsApart(manager: HandleManager, sessions: map<nat, Session>, w: Ledger<Object>, own: nat)
    requires Managed(manager, sessions, w) && Owns(sessions, w) && own in sessions
    ensures forall h :: h in sessions && h != own ==> sessions[h] != sessions[own]
    ensures forall h :: h in sessions && h != own ==> Owned(w.home, h) !! Owned(w.home, own)
  {
  }

  lemma AddedOwned(w: Ledger<Object>, session: nat, o: Object, u: Ledger<Object>)
    requires Added(w, session, o, u) && (o in w.home ==> w.home[o] == session)
    ensures Owned(u.home, session) == Owned(w.home, session) + {o} && u.live == w.live
    ensures forall h :: h != session ==> Owned(u.home, h) == Owned(w.home, h)
  {
  }

  /** A non-null handle has at most one candidate among a session's objects, so `getObject` does not
      depend on the order of its searches; and the candidate is what the registry holds. */
  lemma OneCandidate(c: Context, session: nat, o: Object, p: Object)
    requires c.Valid() && session in c.sessions && o in c.sessions[session].owned && p in c.sessions[session].owned
    requires o.m_handle == p.m_handle != NULL_HANDLE
    ensures o == p && c.registry.m_objects[o.m_handle] == o
  {
    BalancedMirror(c.registry, c.ledger);
    OwnedHaveHandles(c.ledger, session);
  }

  lemma StillManaged(manager: HandleManager, sessions: map<nat, Session>, w: Ledger<Object>, u: Ledger<Object>,
                     objects: seq<Object>)
    requires Managed(manager, sessions, w) && u.live == w.live
    requires forall o :: o in u.handle ==> o in w.handle || o in objects
    requires forall o :: o in objects ==> o !in manager.m_objects.Values
    ensures Managed(manager, sessions, u)
  {
  }

  method CreateObjects(n: nat) returns (objects: seq<Object>)
    ensures |objects| == n && forall i, j :: 0 <= i < j < n ==> objects[i] != objects[j]
    ensures forall o :: o in objects ==> fresh(o) && o.m_handle == NULL_HANDLE
  {
    objects := [];
    for i := 0 to n
      invariant |objects| == i && forall k, j :: 0 <= k < j < i ==> objects[k] != objects[j]
      invariant forall o :: o in objects ==> fresh(o) && o.m_handle == NULL_HANDLE
    {
      var o := new Object();
      objects := objects + [o];
    }
  }
}
