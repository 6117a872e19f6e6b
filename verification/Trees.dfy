/** The shape of a device tree as a value, and what the cached device lists should say about it. */
module Trees {

  /** A routing device with its end devices and the routing devices attached to it. */
  datatype Tree<D, E> = Tree(device: D, ends: seq<E>, kids: seq<Tree<D, E>>)

  /** The four containers a routing device or a controller keeps: attached directly, and cached from below. */
  datatype Lists<D, E> = Lists(endsDirect: seq<E>, ends: seq<E>, devicesDirect: seq<D>, devices: seq<D>) {
    function GetEndDevices(all: bool): seq<E> {
      if all then endsDirect + ends else endsDirect
    }

    function GetRoutingDevices(all: bool): seq<D> {
      if all then devicesDirect + devices else devicesDirect
    }

    function WithEndDevice(e: E): Lists<D, E> {
      this.(endsDirect := endsDirect + [e])
    }

    function Listing(d: D): Lists<D, E> {
      this.(devicesDirect := devicesDirect + [d])
    }

    /** `attachRoutingDevice`: caches everything the newcomer lists at this moment. */
    function WithRoutingDevice(d: D, below: Lists<D, E>): Lists<D, E> {
      this.(devicesDirect := devicesDirect + [d],
            ends := ends + below.GetEndDevices(true),
            devices := devices + below.GetRoutingDevices(true))
    }
  }

  /** Every end device of the tree, and of a forest, depth first. */
  function AllEnds<D, E>(t: Tree<D, E>): seq<E>
    decreases t, 0
  {
    t.ends + ForestEnds(t.kids)
  }

  function ForestEnds<D, E>(ts: seq<Tree<D, E>>): seq<E> {
    if ts == [] then [] else AllEnds(ts[0]) + ForestEnds(ts[1..])
  }

  /** Every routing device of the tree, root first. */
  function Preorder<D, E>(t: Tree<D, E>): seq<D>
    decreases t, 0
  {
    [t.device] + ForestPreorder(t.kids)
  }

  function ForestPreorder<D, E>(ts: seq<Tree<D, E>>): seq<D> {
    if ts == [] then [] else Preorder(ts[0]) + ForestPreorder(ts[1..])
  }

  function Roots<D, E>(ts: seq<Tree<D, E>>): (r: seq<D>)
    ensures |r| == |ts| && forall i :: 0 <= i < |r| ==> r[i] == ts[i].device
  {
    if ts == [] then [] else [ts[0].device] + Roots(ts[1..])
  }

  /** What is cached of the routing devices below a forest's roots. */
  function ForestBelow<D, E>(ts: seq<Tree<D, E>>): seq<D> {
    if ts == [] then [] else (Roots(ts[0].kids) + ForestBelow(ts[0].kids)) + ForestBelow(ts[1..])
  }

  /** The lists that describe a node with these children. */
  function ListsOf<D, E>(ends: seq<E>, kids: seq<Tree<D, E>>): Lists<D, E> {
    Lists(ends, ForestEnds(kids), Roots(kids), ForestBelow(kids))
  }

  lemma {:induction false} EndsAppend<D, E>(ts: seq<Tree<D, E>>, t: Tree<D, E>)
    ensures ForestEnds(ts + [t]) == ForestEnds(ts) + AllEnds(t)
  {
    if ts == [] {
      assert ForestEnds<D, E>([t][1..]) == [];
    } else {
      assert (ts + [t])[1..] == ts[1..] + [t];
      EndsAppend(ts[1..], t);
    }
  }

  lemma {:induction false} RootsAppend<D, E>(ts: seq<Tree<D, E>>, t: Tree<D, E>)
    ensures Roots(ts + [t]) == Roots(ts) + [t.device]
  {
  }

  lemma {:induction false} BelowAppend<D, E>(ts: seq<Tree<D, E>>, t: Tree<D, E>)
    ensures ForestBelow(ts + [t]) == ForestBelow(ts) + (Roots(t.kids) + ForestBelow(t.kids))
  {
    if ts == [] {
      assert ForestBelow<D, E>([t][1..]) == [];
    } else {
      assert (ts + [t])[1..] == ts[1..] + [t];
      BelowAppend(ts[1..], t);
    }
  }

  /** Attaching a finished subtree keeps the lists right. */
  lemma AttachedListsAgree<D, E>(ends: seq<E>, kids: seq<Tree<D, E>>, t: Tree<D, E>)
    ensures ListsOf(ends, kids).WithRoutingDevice(t.device, ListsOf(t.ends, t.kids)) == ListsOf(ends, kids + [t])
  {
    EndsAppend(kids, t);
    RootsAppend(kids, t);
    BelowAppend(kids, t);
  }

  /** The cached lists hold exactly the devices of the subtree. */
  lemma {:induction false} ListsAreFlattening<D, E>(ends: seq<E>, kids: seq<Tree<D, E>>)
    ensures ListsOf(ends, kids).GetEndDevices(false) == ends
    ensures ListsOf(ends, kids).GetRoutingDevices(false) == Roots(kids)
    ensures ListsOf(ends, kids).GetEndDevices(true) == ends + ForestEnds(kids)
    ensures multiset(ListsOf(ends, kids).GetRoutingDevices(true)) == multiset(ForestPreorder(kids))
    decreases kids
  {
    if kids == [] {
    } else {
      var k, rest := kids[0], kids[1..];
      ListsAreFlattening(k.ends, k.kids);
      ListsAreFlattening(ends, rest);
      assert Roots(kids) == [k.device] + Roots(rest);
      assert ForestBelow(kids) == (Roots(k.kids) + ForestBelow(k.kids)) + ForestBelow(rest);
      assert ForestPreorder(kids) == ([k.device] + ForestPreorder(k.kids)) + ForestPreorder(rest);
    }
  }

  // ---- attaching, early and late ----

  /** What is attached: an end device, or a routing device with everything that is below it by then. */
  datatype Item<D, E> = Leaf(e: E) | Branch(t: Tree<D, E>)

  /** What attaching does to the lists of the device that is attached to. */
  function Received<D, E>(lists: Lists<D, E>, item: Item<D, E>): Lists<D, E> {
    match item
    case Leaf(e) => lists.WithEndDevice(e)
    case Branch(t) => lists.WithRoutingDevice(t.device, ListsOf(t.ends, t.kids))
  }

  function EndsWith<D, E>(ends: seq<E>, item: Item<D, E>): seq<E> {
    if item.Leaf? then ends + [item.e] else ends
  }

  function KidsWith<D, E>(kids: seq<Tree<D, E>>, item: Item<D, E>): seq<Tree<D, E>> {
    if item.Branch? then kids + [item.t] else kids
  }

  /** Attaching keeps the lists of the receiving device right. */
  lemma ReceivedAgrees<D, E>(ends: seq<E>, kids: seq<Tree<D, E>>, item: Item<D, E>)
    ensures Received(ListsOf(ends, kids), item) == ListsOf(EndsWith(ends, item), KidsWith(kids, item))
  {
    if item.Branch? {
      AttachedListsAgree(ends, kids, item.t);
    }
  }

  /** A path of child indices that leads to a node below. */
  predicate OnPath<D, E>(kids: seq<Tree<D, E>>, path: seq<nat>)
    decreases |path|
  {
    path == [] || (path[0] < |kids| && OnPath(kids[path[0]].kids, path[1..]))
  }

  /** The direct end devices and the subtrees of a node after an attach at the node the path leads to. */
  function AfterAttach<D, E>(ends: seq<E>, kids: seq<Tree<D, E>>, path: seq<nat>, item: Item<D, E>):
    (seq<E>, seq<Tree<D, E>>)
    requires OnPath(kids, path)
    decreases |path|
  {
    if path == [] then (EndsWith(ends, item), KidsWith(kids, item)) else
      var t := kids[path[0]];
      var below := AfterAttach(t.ends, t.kids, path[1..], item);
      (ends, kids[path[0] := Tree(t.device, below.0, below.1)])
  }

  /** The lists of the upper node after that attach: they change only if it happens at that very node. */
  function ListsAfter<D, E>(lists: Lists<D, E>, path: seq<nat>, item: Item<D, E>): Lists<D, E> {
    if path == [] then Received(lists, item) else lists
  }

  /** An attach leaves the lists of a node at or above it right exactly when it happens at that node: whatever
      is attached below a device that has a parent already is missing from the caches of all its ancestors. */
  lemma AttachKeepsListsIff<D, E>(ends: seq<E>, kids: seq<Tree<D, E>>, path: seq<nat>, item: Item<D, E>)
    requires OnPath(kids, path)
    ensures var after := AfterAttach(ends, kids, path, item);
            ListsAfter(ListsOf(ends, kids), path, item) == ListsOf(after.0, after.1) <==> path == []
  {
    if path == [] {
      ReceivedAgrees(ends, kids, item);
    } else {
      var after := AfterAttach(ends, kids, path, item);
      LateAttachCounts(ends, kids, path, item);
      ListsAreFlattening(ends, kids);
      ListsAreFlattening(after.0, after.1);
      SameElements(ListsOf(ends, kids).GetRoutingDevices(true), ForestPreorder(kids));
      SameElements(ListsOf(after.0, after.1).GetRoutingDevices(true), ForestPreorder(after.1));
    }
  }

  lemma SameElements<T>(a: seq<T>, b: seq<T>)
    requires multiset(a) == multiset(b)
    ensures |a| == |b|
  {
    assert |multiset(a)| == |a| && |multiset(b)| == |b|;
  }

  /** The tree gains one end device, or all routing devices of the subtree. */
  lemma {:induction false} LateAttachCounts<D, E>(ends: seq<E>, kids: seq<Tree<D, E>>, path: seq<nat>, item: Item<D, E>)
    requires OnPath(kids, path)
    ensures var after := AfterAttach(ends, kids, path, item);
            && (item.Leaf? ==> |after.0| + |ForestEnds(after.1)| == |ends| + |ForestEnds(kids)| + 1)
            && (item.Branch? ==> |ForestPreorder(after.1)| == |ForestPreorder(kids)| + |Preorder(item.t)|)
    decreases |path|
  {
    if path == [] {
      if item.Branch? {
        PreorderAppend(kids, item.t);
      }
    } else {
      var i := path[0];
      var t := kids[i];
      var below := AfterAttach(t.ends, t.kids, path[1..], item);
      LateAttachCounts(t.ends, t.kids, path[1..], item);
      ForestUpdate(kids, i, Tree(t.device, below.0, below.1));
    }
  }

  lemma {:induction false} PreorderAppend<D, E>(ts: seq<Tree<D, E>>, t: Tree<D, E>)
    ensures ForestPreorder(ts + [t]) == ForestPreorder(ts) + Preorder(t)
  {
    if ts == [] {
      assert ForestPreorder<D, E>([t][1..]) == [];
    } else {
      assert (ts + [t])[1..] == ts[1..] + [t];
      PreorderAppend(ts[1..], t);
    }
  }

  lemma {:induction false} ForestUpdate<D, E>(ts: seq<Tree<D, E>>, i: nat, t: Tree<D, E>)
    requires i < |ts|
    ensures |ForestEnds(ts[i := t])| == |ForestEnds(ts)| - |AllEnds(ts[i])| + |AllEnds(t)|
    ensures |ForestPreorder(ts[i := t])| == |ForestPreorder(ts)| - |Preorder(ts[i])| + |Preorder(t)|
  {
    if i == 0 {
      assert ts[i := t][1..] == ts[1..];
    } else {
      assert ts[i := t][1..] == ts[1..][i - 1 := t];
      ForestUpdate(ts[1..], i - 1, t);
    }
  }
}
