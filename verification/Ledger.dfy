/** Which handles are given out, to which objects, on behalf of which sessions: the state of the
    library context as a value, and every run of it. */
module Ledger {
  const NULL_HANDLE: nat := 0
  const MAX_HANDLE: nat := 0xFFFF_FFFF

  ghost predicate IsLast(keys: set<nat>, last: nat) {
    last in keys && forall k :: k in keys ==> k <= last
  }

  lemma LastExists(keys: set<nat>)
    requires keys != {}
    ensures exists last :: IsLast(keys, last)
  {
    var k :| k in keys;
    if keys == {k} {
      assert IsLast(keys, k);
    } else {
      LastExists(keys - {k});
      var l :| IsLast(keys - {k}, l);
      assert forall x :: x in keys ==> x == k || x in keys - {k};
      assert IsLast(keys, if k < l then l else k);
    }
  }

  /** The handle an object would be entered under: its own when that is taken, one past the last
      otherwise, and none when the last possible handle is in use. */
  ghost predicate IsUnique(keys: set<nat>, own: nat, handle: nat) {
    if own != NULL_HANDLE && own in keys then handle == own
    else if keys == {} then handle == 1
    else exists last: nat :: IsLast(keys, last) && handle == if last == MAX_HANDLE then NULL_HANDLE else last + 1
  }

  /** The allocator determines its answer. */
  lemma UniqueIsDetermined(keys: set<nat>, own: nat, a: nat, b: nat)
    requires IsUnique(keys, own, a) && IsUnique(keys, own, b)
    ensures a == b
  {
  }

  /** The entries whose object is not among `gone`. */
  ghost function Without<T>(m: map<nat, T>, gone: set<T>): map<nat, T> {
    map h | h in m && m[h] !in gone :: m[h]
  }

  /** `registry` maps handles to objects, `handle` gives each live object the handle it carries, `home`
      the session it was created for, and `live` are the open sessions' own handles. */
  datatype Ledger<!T(==)> = Ledger(registry: map<nat, T>, handle: map<T, nat>, home: map<T, nat>, live: set<nat>)

  /** The registry's entries are, one for one, the live sessions' objects that carry a handle. */
  ghost predicate Balanced<T>(w: Ledger<T>) {
    && w.handle.Keys == w.home.Keys
    && (forall o :: o in w.home ==> w.home[o] in w.live)
    && (forall h :: h in w.registry ==>
          NULL_HANDLE < h <= MAX_HANDLE && w.registry[h] in w.handle && w.handle[w.registry[h]] == h)
    && (forall o :: o in w.handle && w.handle[o] != NULL_HANDLE ==>
          w.handle[o] in w.registry && w.registry[w.handle[o]] == o)
    && (forall s :: s in w.live ==> NULL_HANDLE < s <= MAX_HANDLE)
  }

  ghost function Owned<T>(home: map<T, nat>, session: nat): set<T> {
    set o | o in home && home[o] == session
  }

  /** Adding an object to a session: a first registration takes a new handle if one is left. */
  ghost predicate Added<T>(w: Ledger<T>, session: nat, o: T, w': Ledger<T>) {
    && w'.home == w.home[o := session] && w'.live == w.live
    && (if (o in w.handle && w.handle[o] != NULL_HANDLE) || MAX_HANDLE in w.registry then
          && w'.registry == w.registry
          && w'.handle == w.handle[o := if o in w.handle then w.handle[o] else NULL_HANDLE]
        else
          && w'.handle.Keys == w.handle.Keys + {o}
          && IsUnique(w.registry.Keys, NULL_HANDLE, w'.handle[o])
          && w'.handle == w.handle[o := w'.handle[o]]
          && w'.registry == w.registry[w'.handle[o] := o])
  }

  /** What closing a session leaves. */
  ghost function Closed<T>(w: Ledger<T>, session: nat): Ledger<T> {
    var gone := Owned(w.home, session);
    Ledger(Without(w.registry, gone), w.handle - gone, w.home - gone, w.live - {session})
  }

  /** An object gives its handle up but stays in its session. */
  ghost function Unregistered<T>(w: Ledger<T>, o: T): Ledger<T>
    requires o in w.handle
  {
    w.(registry := w.registry - {w.handle[o]}, handle := w.handle[o := NULL_HANDLE])
  }

  ghost function Started<T>(w: Ledger<T>, session: nat): Ledger<T> {
    w.(live := w.live + {session})
  }

  // ---- runs ----

  datatype Step<!T(==)> =
    | Open(session: nat, objects: seq<T>, states: seq<Ledger<T>>)
    | FailedOpen(session: nat, objects: seq<T>, states: seq<Ledger<T>>)
    | Close(session: nat)
    | Add(session: nat, o: T) // to a session that is open
    | Remove(raid: T) // an array or a volume

  /** Discovery adds the objects one after the other, starting from an empty session. */
  ghost predicate Discovery<T>(w: Ledger<T>, session: nat, objects: seq<T>, states: seq<Ledger<T>>) {
    && |states| == |objects| + 1 && states[0] == Started(w, session)
    && forall i :: 0 <= i < |objects| ==> Added(states[i], session, objects[i], states[i + 1])
  }

  ghost predicate Next<T>(w: Ledger<T>, step: Step<T>, w': Ledger<T>) {
    match step
    case Open(session, objects, states) =>
      && IsUnique(w.live, NULL_HANDLE, session) && session != NULL_HANDLE
      && (forall o :: o in objects ==> o !in w.home)
      && Discovery(w, session, objects, states) && w' == states[|objects|]
    case FailedOpen(session, objects, states) =>
      && IsUnique(w.live, NULL_HANDLE, session) && session != NULL_HANDLE
      && (forall o :: o in objects ==> o !in w.home)
      && Discovery(w, session, objects, states) && w' == Closed(states[|objects|], session)
    case Close(session) => session in w.live && w' == Closed(w, session)
    case Add(session, o) =>
      session in w.live && (o in w.home ==> w.home[o] == session) && Added(w, session, o, w')
    case Remove(raid) => raid in w.home && w.handle.Keys == w.home.Keys && w' == Unregistered(w, raid)
  }

  ghost predicate Run<T>(states: seq<Ledger<T>>, steps: seq<Step<T>>) {
    && |states| == |steps| + 1 && states[0] == Ledger(map[], map[], map[], {})
    && forall i :: 0 <= i < |steps| ==> Next(states[i], steps[i], states[i + 1])
  }

  lemma NewHandleIsGreater(keys: set<nat>, handle: nat)
    requires IsUnique(keys, NULL_HANDLE, handle) && handle != NULL_HANDLE
    requires forall k :: k in keys ==> k <= MAX_HANDLE
    ensures forall k :: k in keys ==> k < handle
    ensures handle <= MAX_HANDLE
  {
  }

  lemma AddedKeepsBalance<T>(w: Ledger<T>, session: nat, o: T, w': Ledger<T>)
    requires Balanced(w) && Added(w, session, o, w') && session in w.live
    requires o in w.home ==> w.home[o] == session
    ensures Balanced(w')
    ensures w'.registry == w.registry || (forall k :: k in w.registry ==> k < w'.handle[o])
    ensures w'.home.Keys == w.home.Keys + {o}
    ensures forall x :: x in w.home ==> w'.home[x] == w.home[x]
    ensures forall x :: x in w.handle && x != o ==> w'.handle[x] == w.handle[x]
  {
    hide IsUnique;
    if w'.registry != w.registry {
      assert forall k :: k in w.registry ==> k in w.registry.Keys;
      NewHandleExists(w.registry.Keys, w'.handle[o]);
      NewHandleIsGreater(w.registry.Keys, w'.handle[o]);
    }
  }

  lemma NewHandleExists(keys: set<nat>, handle: nat)
    requires IsUnique(keys, NULL_HANDLE, handle) && MAX_HANDLE !in keys
    ensures handle != NULL_HANDLE
  {
  }

  /** Closing keeps the balance, and takes exactly the closed session's handles out. */
  lemma ClosedKeepsBalance<T>(w: Ledger<T>, session: nat)
    requires Balanced(w)
    ensures Balanced(Closed(w, session))
    ensures forall h :: h in w.registry ==> (h in Closed(w, session).registry <==> w.home[w.registry[h]] != session)
    ensures forall o :: o in w.home && w.home[o] != session ==>
              o in Closed(w, session).handle && Closed(w, session).handle[o] == w.handle[o]
  {
  }

  lemma UnregisteredKeepsBalance<T>(w: Ledger<T>, o: T)
    requires Balanced(w) && o in w.handle
    ensures Balanced(Unregistered(w, o))
  {
    var w' := Unregistered(w, o);
    forall x | x in w'.handle && w'.handle[x] != NULL_HANDLE
      ensures w'.handle[x] in w'.registry && w'.registry[w'.handle[x]] == x
    {
      assert w.registry[w.handle[x]] == x;
    }
  }

  /** Up to any point of its discovery, a session's own objects are all that has been added. */
  lemma {:induction false} DiscoveryAdds<T>(w: Ledger<T>, session: nat, objects: seq<T>, states: seq<Ledger<T>>, n: nat)
    requires Balanced(w) && session !in w.live && NULL_HANDLE < session <= MAX_HANDLE
    requires forall o :: o in objects ==> o !in w.home
    requires Discovery(w, session, objects, states) && n <= |objects|
    ensures Balanced(states[n]) && states[n].live == w.live + {session}
    ensures Closed(states[n], session) == w
    ensures Owned(states[n].home, session) == set i | 0 <= i < n :: objects[i]
  {
    if n == 0 {
      assert Owned(states[0].home, session) == {};
      assert Closed(states[0], session) == w by {
        assert Without(w.registry, {}) == w.registry;
        assert w.handle - {} == w.handle && w.home - {} == w.home;
      }
    } else {
      DiscoveryAdds(w, session, objects, states, n - 1);
      DiscoveryStep(w, states[n - 1], session, objects[n - 1], states[n]);
    }
  }

  lemma DiscoveryExtends<T>(w: Ledger<T>, session: nat, objects: seq<T>, states: seq<Ledger<T>>, o: T, u: Ledger<T>)
    requires Discovery(w, session, objects, states) && Added(states[|objects|], session, o, u)
    ensures Discovery(w, session, objects + [o], states + [u])
  {
  }

  lemma DiscoveryStarts<T>(w: Ledger<T>, session: nat)
    ensures Discovery(w, session, [], [Started(w, session)])
  {
  }

  lemma DiscoveryStep<T>(w: Ledger<T>, u: Ledger<T>, session: nat, o: T, u': Ledger<T>)
    requires Balanced(u) && Added(u, session, o, u') && session in u.live
    requires Closed(u, session) == w && o !in w.home
    ensures Balanced(u') && Closed(u', session) == w && u'.live == u.live
    ensures Owned(u'.home, session) == Owned(u.home, session) + {o}
  {
    var gone := Owned(u.home, session);
    assert o in u.home ==> o in gone by {
      assert w.home == u.home - gone;
    }
    AddedKeepsBalance(u, session, o, u');
    ClosedForgetsAdded(u, session, o, u');
  }

  lemma ClosedForgetsAdded<T>(u: Ledger<T>, session: nat, o: T, u': Ledger<T>)
    requires u.handle.Keys == u.home.Keys && forall h :: h in u.registry ==> u.registry[h] in u.home
    requires Added(u, session, o, u') && (o in u.home ==> u.home[o] == session)
    ensures Closed(u', session) == Closed(u, session)
    ensures Owned(u'.home, session) == Owned(u.home, session) + {o}
  {
    var gone, gone' := Owned(u.home, session), Owned(u'.home, session);
    assert gone' == gone + {o};
    assert u'.home - gone' == u.home - gone;
    assert u'.handle - gone' == u.handle - gone;
    assert Without(u'.registry, gone') == Without(u.registry, gone);
  }

  /** Every step keeps the balance; a failed open changes nothing at all. */
  lemma NextKeepsBalance<T>(w: Ledger<T>, step: Step<T>, w': Ledger<T>)
    requires Balanced(w) && Next(w, step, w')
    ensures Balanced(w')
    ensures step.FailedOpen? ==> w' == w
    ensures step.Open? ==> Closed(w', step.session) == w
  {
    match step
    case Close(session) =>
      ClosedKeepsBalance(w, session);
    case Add(session, o) =>
      AddedKeepsBalance(w, session, o, w');
    case Remove(raid) =>
      UnregisteredKeepsBalance(w, raid);
    case _ =>
      assert forall k :: k in w.live ==> k <= MAX_HANDLE;
      NewHandleIsGreater(w.live, step.session);
      DiscoveryAdds(w, step.session, step.objects, step.states, |step.objects|);
  }

  /** In every reachable state the registry is balanced. */
  lemma {:induction false} RunsAreBalanced<T>(states: seq<Ledger<T>>, steps: seq<Step<T>>, n: nat)
    requires Run(states, steps) && n < |states|
    ensures Balanced(states[n])
  {
    if n == 0 {
    } else {
      RunsAreBalanced(states, steps, n - 1);
      NextKeepsBalance(states[n - 1], steps[n - 1], states[n]);
    }
  }

  /** The registered handles are the disjoint union of the handles of the live sessions' objects. */
  lemma RegistryIsDisjointUnion<T>(w: Ledger<T>)
    requires Balanced(w)
    ensures forall h :: h in w.registry <==>
              exists s :: s in w.live && exists o :: o in Owned(w.home, s) && w.handle[o] == h && h != NULL_HANDLE
    ensures forall s, t :: s != t ==> Owned(w.home, s) !! Owned(w.home, t)
    ensures forall o, p :: o in w.home && p in w.home && w.handle[o] == w.handle[p] != NULL_HANDLE ==> o == p
  {
    forall h | h in w.registry
      ensures exists s :: s in w.live && exists o :: o in Owned(w.home, s) && w.handle[o] == h && h != NULL_HANDLE
    {
      var o := w.registry[h];
      assert o in Owned(w.home, w.home[o]) && w.handle[o] == h;
    }
  }
}
