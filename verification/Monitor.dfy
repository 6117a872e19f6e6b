/** The event monitor: two buffers of container snapshots, kept in linked lists, compared on every poll. */
module Monitor {

  const MAX_CONTAINERS: nat := 10

  // ---- linked lists of member names ----

  class DevMember {
    const name: string
    const next: DevMember?
    ghost const length: nat

    constructor (name: string, next: DevMember?)
      ensures this.name == name && this.next == next && length == 1 + (if next == null then 0 else next.length)
    {
      this.name, this.next := name, next;
      this.length := 1 + if next == null then 0 else next.length;
    }
  }

  ghost predicate Proper(m: DevMember?)
    decreases if m == null then 0 else m.length
  {
    m != null ==> 1 <= m.length && (m.next != null ==> m.next.length < m.length && Proper(m.next))
  }

  /** The nodes of a list, front first. */
  ghost function Chain(m: DevMember?): seq<DevMember>
    requires Proper(m)
    decreases if m == null then 0 else m.length
  {
    if m == null then [] else [m] + Chain(m.next)
  }

  ghost function Names(m: DevMember?): set<string>
    requires Proper(m)
  {
    set n | n in Chain(m) :: n.name
  }

  /** `_compare_member_lists`: true when some name of the first list is missing from the second. */
  method MissingName(cm: DevMember?, om: DevMember?) returns (missing: bool)
    requires Proper(cm) && Proper(om)
    ensures missing <==> !(Names(cm) <= Names(om))
  {
    var c := cm;
    while c != null
      invariant Proper(c) && Names(c) <= Names(cm)
      invariant Names(cm) <= Names(om) <==> Names(c) <= Names(om)
      decreases if c == null then 0 else c.length
    {
      NamesStep(c);
      var o := om;
      var found := false;
      while o != null
        invariant Proper(o) && Names(o) <= Names(om)
        invariant c.name in Names(om) <==> c.name in Names(o)
        decreases if o == null then 0 else o.length
      {
        NamesStep(o);
        if c.name == o.name {
          found := true;
          break;
        }
        o := o.next;
      }
      if !found {
        return true;
      }
      c := c.next;
    }
    return false;
  }

  lemma NamesStep(m: DevMember)
    requires Proper(m)
    ensures Proper(m.next) && Names(m) == {m.name} + Names(m.next)
    ensures 1 <= m.length && (m.next != null ==> m.next.length < m.length)
    ensures Chain(m) == [m] + Chain(m.next)
  {
    assert m in Chain(m);
    assert forall n :: n in Chain(m.next) ==> n in Chain(m);
  }

  /** The names of a list, front first. */
  ghost function NamesIn(m: DevMember?): seq<string>
    requires Proper(m)
    decreases if m == null then 0 else m.length
  {
    if m == null then [] else [m.name] + NamesIn(m.next)
  }

  lemma NamesAre(m: DevMember?)
    requires Proper(m)
    ensures Names(m) == SetOf(NamesIn(m))
    decreases if m == null then 0 else m.length
  {
    if m == null {
    } else {
      NamesStep(m);
      NamesAre(m.next);
      assert forall n :: n in NamesIn(m) <==> n == m.name || n in SetOf(NamesIn(m.next));
    }
  }

  // ---- snapshots ----

  /** One container line of a reading: its device number and its members, in the order of the text. */
  datatype Entry = Entry(devnum: nat, names: seq<string>)

  function SetOf(names: seq<string>): set<string> {
    set n | n in names
  }

  function Reversed(names: seq<string>): seq<string> {
    if names == [] then [] else Reversed(names[1..]) + [names[0]]
  }

  lemma ReversedSnoc(names: seq<string>, last: string)
    ensures Reversed(names + [last]) == [last] + Reversed(names)
  {
    if names == [] {
    } else {
      assert (names + [last])[1..] == names[1..] + [last];
      ReversedSnoc(names[1..], last);
    }
  }

  lemma ReversedSet(names: seq<string>)
    ensures SetOf(Reversed(names)) == SetOf(names)
  {
    if names == [] {
    } else {
      ReversedSet(names[1..]);
      assert names == [names[0]] + names[1..];
      assert forall n :: n in Reversed(names) <==> n in SetOf(Reversed(names[1..])) || n == names[0];
      assert forall n :: n in names <==> n in SetOf(names[1..]) || n == names[0];
    }
  }

  /** No two containers of a reading have the same device number. */
  predicate Distinct(es: seq<Entry>) {
    forall i, j :: 0 <= i < j < |es| ==> es[i].devnum != es[j].devnum
  }

  /** A reading as a map from device number to the set of member names. */
  ghost function Devices(es: seq<Entry>): map<nat, set<string>>
    requires Distinct(es)
  {
    map d | d in Numbers(es) :: SetOf(es[IndexOf(es, d)].names)
  }

  ghost function Numbers(es: seq<Entry>): set<nat> {
    set i | 0 <= i < |es| :: es[i].devnum
  }

  ghost function IndexOf(es: seq<Entry>, d: nat): (i: nat)
    requires d in Numbers(es) && Distinct(es)
    ensures i < |es| && es[i].devnum == d
    ensures forall j :: 0 <= j < |es| && es[j].devnum == d ==> j == i
  {
    var i :| 0 <= i < |es| && es[i].devnum == d;
    i
  }

  /** The first entry of `b` with the number of `c` has the members of `c`. */
  ghost predicate Found(c: Entry, b: seq<Entry>) {
    exists j :: 0 <= j < |b| && b[j].devnum == c.devnum && SetOf(b[j].names) == SetOf(c.names)
      && forall k :: 0 <= k < j ==> b[k].devnum != c.devnum
  }

  ghost predicate Covered(a: seq<Entry>, b: seq<Entry>) {
    forall i :: 0 <= i < |a| ==> Found(a[i], b)
  }

  /** What a poll reports as a change. */
  ghost predicate Changed(a: seq<Entry>, b: seq<Entry>) {
    !Covered(a, b) || !Covered(b, a)
  }

  /** A change is a difference of the two maps: slot order, list order and repeated names do not matter. */
  lemma ChangedIffDevicesDiffer(a: seq<Entry>, b: seq<Entry>)
    requires Distinct(a) && Distinct(b)
    ensures Changed(a, b) <==> Devices(a) != Devices(b)
  {
    if Covered(a, b) && Covered(b, a) {
      CoveredIsIncluded(a, b);
      CoveredIsIncluded(b, a);
    }
    if Devices(a) == Devices(b) {
      EqualIsCovered(a, b);
      EqualIsCovered(b, a);
    }
  }

  lemma CoveredIsIncluded(a: seq<Entry>, b: seq<Entry>)
    requires Distinct(a) && Distinct(b) && Covered(a, b)
    ensures forall d :: d in Devices(a) ==> d in Devices(b) && Devices(a)[d] == Devices(b)[d]
  {
    forall d | d in Devices(a) ensures d in Devices(b) && Devices(a)[d] == Devices(b)[d] {
      var i := IndexOf(a, d);
      assert Found(a[i], b);
      var j :| 0 <= j < |b| && b[j].devnum == d && SetOf(b[j].names) == SetOf(a[i].names);
      assert d in Numbers(b) && IndexOf(b, d) == j;
    }
  }

  lemma EqualIsCovered(a: seq<Entry>, b: seq<Entry>)
    requires Distinct(a) && Distinct(b) && Devices(a) == Devices(b)
    ensures Covered(a, b)
  {
    forall i | 0 <= i < |a| ensures Found(a[i], b) {
      var d := a[i].devnum;
      assert d in Numbers(a) && IndexOf(a, d) == i;
      assert d in Devices(b);
      var j := IndexOf(b, d);
      assert SetOf(b[j].names) == Devices(b)[d] == SetOf(a[i].names);
    }
  }

  // ---- buffers ----

  datatype ContainerDev = ContainerDev(devs: DevMember?, devnum: int)

  const EMPTY: ContainerDev := ContainerDev(null, -1)

  /** A slot in use holds one entry, members pushed at the front as they were read. */
  ghost predicate HoldsEntry(c: ContainerDev, e: Entry) {
    c.devnum == e.devnum && Proper(c.devs) && NamesIn(c.devs) == Reversed(e.names)
  }

  /** The buffer holds the entries in its first slots, and the other slots are free. */
  ghost predicate Holds(slots: seq<ContainerDev>, es: seq<Entry>) {
    && |es| <= |slots| == MAX_CONTAINERS
    && (forall i :: 0 <= i < |es| ==> HoldsEntry(slots[i], es[i]))
    && (forall i :: |es| <= i < |slots| ==> slots[i] == EMPTY)
  }

  /** What the ten slots keep of a reading. */
  function Kept(es: seq<Entry>): seq<Entry> {
    if |es| <= MAX_CONTAINERS then es else es[..MAX_CONTAINERS]
  }

  lemma HeldNames(c: ContainerDev, e: Entry)
    requires HoldsEntry(c, e)
    ensures Names(c.devs) == SetOf(e.names)
  {
    NamesAre(c.devs);
    ReversedSet(e.names);
  }

  /** `_compare_members`. */
  method MembersDiffer(c: ContainerDev, o: ContainerDev) returns (differ: bool)
    requires Proper(c.devs) && Proper(o.devs)
    ensures differ <==> Names(c.devs) != Names(o.devs)
  {
    var missing := MissingName(c.devs, o.devs);
    if missing {
      return true;
    }
    differ := MissingName(o.devs, c.devs);
  }

  /** `_compare_container_list`. */
  method ListsDiffer(first: array<ContainerDev>, second: array<ContainerDev>, ghost a: seq<Entry>, ghost b: seq<Entry>)
    returns (differ: bool)
    requires Holds(first[..], a) && Holds(second[..], b)
    ensures differ <==> !Covered(a, b)
  {
    var i := 0;
    while i < MAX_CONTAINERS
      invariant 0 <= i <= MAX_CONTAINERS
      invariant forall k :: 0 <= k < i && k < |a| ==> Found(a[k], b)
    {
      assert first[i] == first[..][i];
      if first[i].devnum >= 0 {
        assert HoldsEntry(first[i], a[i]);
        var j := 0;
        while j < MAX_CONTAINERS
          invariant 0 <= j <= MAX_CONTAINERS
          invariant forall k :: 0 <= k < j && k < |b| ==> b[k].devnum != first[i].devnum
        {
          assert second[j] == second[..][j];
          if second[j].devnum == first[i].devnum {
            assert HoldsEntry(second[j], b[j]);
            HeldNames(first[i], a[i]);
            HeldNames(second[j], b[j]);
            var differs := MembersDiffer(first[i], second[j]);
            if differs {
              return true;
            }
            break;
          }
          j := j + 1;
        }
        if j == MAX_CONTAINERS {
          return true;
        }
      }
      i := i + 1;
    }
    return false;
  }

  /** Filling the first free slot extends what the buffer holds. */
  lemma Filled(slots: seq<ContainerDev>, es: seq<Entry>, c: ContainerDev, e: Entry)
    requires Holds(slots, es) && |es| < MAX_CONTAINERS && HoldsEntry(c, e)
    ensures Holds(slots[|es| := c], es + [e])
  {
    hide Proper, NamesIn, Reversed;
  }

  // ---- ownership ----

  /** The list nodes a buffer owns, with multiplicity. */
  ghost function Owned(slots: seq<ContainerDev>): multiset<DevMember>
    requires forall i :: 0 <= i < |slots| ==> Proper(slots[i].devs)
  {
    if slots == [] then multiset{}
    else multiset(Chain(slots[0].devs)) + Owned(slots[1..])
  }

  /** Changing one slot changes what is owned by that slot's list only. */
  lemma OwnedUpdate(slots: seq<ContainerDev>, i: nat, c: ContainerDev)
    requires i < |slots| && Proper(c.devs) && forall k :: 0 <= k < |slots| ==> Proper(slots[k].devs)
    ensures Owned(slots[i := c]) + multiset(Chain(slots[i].devs)) == Owned(slots) + multiset(Chain(c.devs))
  {
    hide Chain, Proper;
    var changed := slots[i := c];
    if i == 0 {
      assert changed[1..] == slots[1..];
    } else {
      assert changed[1..] == slots[1..][i - 1 := c];
      assert slots[1..][i - 1] == slots[i];
      OwnedUpdate(slots[1..], i - 1, c);
      assert changed[0] == slots[0];
      Exchange(Owned(changed[1..]), multiset(Chain(slots[i].devs)), Owned(slots[1..]), multiset(Chain(c.devs)),
        multiset(Chain(slots[0].devs)));
    }
  }

  /** Emptying a slot in use gives up exactly the nodes of its list. */
  lemma OwnedWithout(slots: seq<ContainerDev>, i: nat)
    requires i < |slots| && forall k :: 0 <= k < |slots| ==> Proper(slots[k].devs)
    ensures Owned(slots[i := EMPTY]) + multiset(Chain(slots[i].devs)) == Owned(slots)
    ensures multiset(Chain(slots[i].devs)) <= Owned(slots)
  {
    OwnedUpdate(slots, i, EMPTY);
    Union(Owned(slots[i := EMPTY]), multiset(Chain(slots[i].devs)), Owned(slots));
  }

  /** Filling a free slot adds exactly the nodes of its list. */
  lemma OwnedWith(slots: seq<ContainerDev>, i: nat, c: ContainerDev)
    requires i < |slots| && Proper(c.devs) && forall k :: 0 <= k < |slots| ==> Proper(slots[k].devs)
    requires slots[i] == EMPTY
    ensures Owned(slots[i := c]) == Owned(slots) + multiset(Chain(c.devs))
  {
    OwnedUpdate(slots, i, c);
    assert multiset(Chain(slots[i].devs)) == multiset{};
  }

  lemma Union(a: multiset<DevMember>, b: multiset<DevMember>, c: multiset<DevMember>)
    requires a + b == c
    ensures b <= c
  {
    forall x | x in b ensures b[x] <= c[x] {
      assert c[x] == (a + b)[x];
    }
  }

  lemma Exchange(a: multiset<DevMember>, b: multiset<DevMember>, c: multiset<DevMember>, d: multiset<DevMember>,
                 common: multiset<DevMember>)
    requires a + b == c + d
    ensures common + a + b == common + c + d
  {
    assert common + a + b == common + (a + b);
    assert common + c + d == common + (c + d);
  }

  lemma Released(was: multiset<DevMember>, now: multiset<DevMember>, kept: multiset<DevMember>,
                 before: multiset<DevMember>, after: multiset<DevMember>, freed: multiset<DevMember>)
    requires was == kept + before && now + freed == was && after + freed == before
    ensures now == kept + after
  {
    forall x ensures now[x] == (kept + after)[x] {
      assert (now + freed)[x] == (kept + before)[x];
      assert (after + freed)[x] == before[x];
    }
  }

  lemma Gained(was: multiset<DevMember>, now: multiset<DevMember>, kept: multiset<DevMember>,
               before: multiset<DevMember>, after: multiset<DevMember>, fresh_nodes: multiset<DevMember>)
    requires was == before + kept && now == was + fresh_nodes && after == before + fresh_nodes
    ensures now == after + kept
  {
  }

  lemma StillLive(rest: multiset<DevMember>, was: multiset<DevMember>, now: multiset<DevMember>,
                  one: multiset<DevMember>)
    requires one + rest <= was && now + one == was
    ensures rest <= now
  {
    forall x | x in rest ensures rest[x] <= now[x] {
      assert (one + rest)[x] <= (now + one)[x];
    }
  }

  lemma WithoutOne(s: set<DevMember>, t: DevMember)
    requires t in s
    ensures multiset(s - {t}) + multiset{t} == multiset(s)
  {
  }

  lemma WithOne(s: set<DevMember>, t: DevMember)
    requires t !in s
    ensures multiset(s + {t}) == multiset(s) + multiset{t}
  {
  }

  lemma NothingAllocated()
    ensures Proper(null) && Chain(null) == [] && NamesIn(null) == [] == Reversed([])
  {
  }

  lemma NamesInStep(m: DevMember)
    requires Proper(m)
    ensures Proper(m.next) && NamesIn(m) == [m.name] + NamesIn(m.next)
  {
  }

  lemma ChainHead(m: DevMember)
    requires Proper(m)
    ensures multiset(Chain(m)) == multiset{m} + multiset(Chain(m.next))
  {
    NamesStep(m);
    assert multiset([m] + Chain(m.next)) == multiset([m]) + multiset(Chain(m.next));
  }

  lemma EmptyOwnsNothing(slots: seq<ContainerDev>)
    requires forall i :: 0 <= i < |slots| ==> slots[i] == EMPTY
    ensures Owned(slots) == multiset{}
  {
  }

  // ---- the views over runs ----

  /** Two snapshots and the number of notifications issued so far. */
  datatype View = View(latest: seq<Entry>, previous: seq<Entry>, notices: nat)

  datatype Event = Watched(reading: seq<Entry>) | Other

  /** One turn of the monitor: a poll of the status file or a batch of directory events. */
  datatype Step = Poll(reading: seq<Entry>) | Batch(events: seq<Event>)

  function AfterRead(v: View, es: seq<Entry>): View {
    View(Kept(es), v.latest, v.notices)
  }

  ghost function AfterPoll(v: View, es: seq<Entry>): View {
    View(Kept(es), v.latest, v.notices + if Changed(Kept(es), v.latest) then 1 else 0)
  }

  /** Each event of the watched directory notifies, and then the status file is read. */
  function AfterBatch(v: View, events: seq<Event>): View
    decreases |events|
  {
    if events == [] then v
    else
      AfterEvent(AfterBatch(v, events[..|events| - 1]), events[|events| - 1])
  }

  function AfterEvent(v: View, event: Event): View {
    match event
    case Watched(es) => View(Kept(es), v.latest, v.notices + 1)
    case Other => v
  }

  ghost function AfterStep(v: View, s: Step): View {
    match s
    case Poll(es) => AfterPoll(v, es)
    case Batch(events) => AfterBatch(v, events)
  }

  ghost function AfterRun(v: View, steps: seq<Step>): View {
    if steps == [] then v
    else AfterStep(AfterRun(v, steps[..|steps| - 1]), steps[|steps| - 1])
  }

  // ---- the monitor ----

  class Monitor {
    const first: array<ContainerDev>
    const second: array<ContainerDev>
    var current: int
    var notices: nat
    ghost var latest: seq<Entry>
    ghost var previous: seq<Entry>
    /** The nodes allocated and not yet deleted. */
    ghost var live: set<DevMember>

    function Current(): array<ContainerDev>
      reads this
    {
      if current == 0 then first else second
    }

    function Spare(): array<ContainerDev>
      reads this
    {
      if current == 0 then second else first
    }

    /** The buffers hold the two last readings, and together own every live node once. */
    ghost predicate Valid()
      reads this, first, second
    {
      && first != second && 0 <= current <= 1
      && Holds(Current()[..], latest) && Holds(Spare()[..], previous)
      && multiset(live) == Owned(Current()[..]) + Owned(Spare()[..])
    }

    ghost function Now(): View
      reads this
    {
      View(latest, previous, notices)
    }

    /** `_init_containers`. */
    constructor ()
      ensures Valid() && fresh(first) && fresh(second) && Now() == View([], [], 0)
    {
      first := new ContainerDev[MAX_CONTAINERS](_ => EMPTY);
      second := new ContainerDev[MAX_CONTAINERS](_ => EMPTY);
      current, notices := 1, 0;
      latest, previous, live := [], [], {};
      new;
      EmptyOwnsNothing(first[..]);
      EmptyOwnsNothing(second[..]);
    }

    /** `_free_member_devnames`: deletes every node of the list, each of them live until then. */
    method FreeMembers(m: DevMember?)
      requires Proper(m) && multiset(Chain(m)) <= multiset(live)
      modifies this`live
      ensures multiset(live) + multiset(Chain(m)) == multiset(old(live))
    {
      var c := m;
      while c != null
        invariant Proper(c) && multiset(Chain(c)) <= multiset(live)
        invariant multiset(live) + multiset(Chain(m)) == multiset(old(live)) + multiset(Chain(c))
        decreases if c == null then 0 else c.length
      {
        var t := c;
        NamesStep(c);
        ChainHead(c);
        c := c.next;
        assert t in multiset(live);
        WithoutOne(live, t);
        ghost var was := multiset(live);
        live := live - {t};
        StillLive(multiset(Chain(c)), was, multiset(live), multiset{t});
        Released(was + multiset(Chain(m)), multiset(live) + multiset(Chain(m)), multiset(old(live)),
          multiset(Chain(t)), multiset(Chain(c)), multiset{t});
      }
    }

    /** One slot of `_clear_other_container`. */
    method FreeSlot(container: array<ContainerDev>, i: nat, ghost kept: multiset<DevMember>)
      requires i < container.Length && forall k :: 0 <= k < container.Length ==> Proper(container[k].devs)
      requires multiset(live) == kept + Owned(container[..])
      modifies this`live, container
      ensures container[..] == old(container[..])[i := EMPTY]
      ensures multiset(live) == kept + Owned(container[..])
    {
      hide Owned, Chain;
      ghost var was := container[..];
      ghost var freed := multiset(Chain(container[i].devs));
      OwnedWithout(was, i);
      FreeMembers(container[i].devs);
      container[i] := EMPTY;
      assert container[..] == was[i := EMPTY];
      Released(multiset(old(live)), multiset(live), kept, Owned(was), Owned(container[..]), freed);
    }

    /** `_clear_other_container`: frees the older snapshot. */
    method ClearOther()
      requires Valid()
      modifies this`live, this`previous, Spare()
      ensures Valid() && previous == []
    {
      hide Owned, Chain, NamesIn, Reversed;
      var container := Spare();
      ghost var kept := Owned(Current()[..]);
      var i := 0;
      while i < MAX_CONTAINERS
        invariant 0 <= i <= MAX_CONTAINERS && container.Length == MAX_CONTAINERS
        invariant forall k :: 0 <= k < i ==> container[k] == EMPTY
        invariant forall k :: i <= k < MAX_CONTAINERS ==> container[k] == old(container[k])
        invariant forall k :: 0 <= k < MAX_CONTAINERS ==> Proper(container[k].devs)
        invariant multiset(live) == kept + Owned(container[..])
      {
        assert container[i] == old(container[..])[i];
        if container[i].devnum >= 0 {
          FreeSlot(container, i, kept);
        }
        i := i + 1;
      }
      EmptyOwnsNothing(container[..]);
      previous := [];
    }

    /** `_switch_current`. */
    method Switch()
      requires Valid()
      modifies this`current, this`latest, this`previous
      ensures Valid() && latest == old(previous) && previous == old(latest)
      ensures Current() == old(Spare()) && Spare() == old(Current())
    {
      current := 1 - current;
      latest, previous := previous, latest;
    }

    /** `_add_member_devname`, once for every name, each new node at the front. */
    method AddMembers(names: seq<string>) returns (members: DevMember?)
      modifies this`live
      ensures Proper(members) && NamesIn(members) == Reversed(names)
      ensures multiset(live) == multiset(old(live)) + multiset(Chain(members))
    {
      hide Chain, NamesIn, Reversed;
      members := null;
      NothingAllocated();
      assert names[..0] == [];
      var k := 0;
      while k < |names|
        invariant 0 <= k <= |names|
        invariant Proper(members) && NamesIn(members) == Reversed(names[..k])
        invariant multiset(live) == multiset(old(live)) + multiset(Chain(members))
      {
        var node := new DevMember(names[k], members);
        ReversedSnoc(names[..k], names[k]);
        assert names[..k + 1] == names[..k] + [names[k]];
        WithOne(live, node);
        live := live + {node};
        ChainHead(node);
        NamesInStep(node);
        members := node;
        k := k + 1;
      }
      assert names[..k] == names;
    }

    /** `_collect_devices`: the next container goes to the first free slot, and is dropped when there is none. */
    method Collect(e: Entry)
      requires Valid()
      modifies this`live, this`latest, Current()
      ensures Valid() && latest == Kept(old(latest) + [e])
    {
      hide Owned, Chain, NamesIn, Reversed;
      var container := Current();
      ghost var was := container[..];
      var i := 0;
      while i < MAX_CONTAINERS && container[i].devnum >= 0
        invariant 0 <= i <= |latest|
      {
        assert was[i] == container[i];
        i := i + 1;
      }
      if i == MAX_CONTAINERS {
        return;
      }
      assert was[i] == container[i];
      assert i == |latest|;
      var members := AddMembers(e.names);
      var c := ContainerDev(members, e.devnum);
      Filled(was, latest, c, e);
      OwnedWith(was, i, c);
      Gained(multiset(old(live)), multiset(live), Owned(Spare()[..]), Owned(was), Owned(was[i := c]),
        multiset(Chain(members)));
      container[i] := c;
      assert container[..] == was[i := c];
      latest := latest + [e];
    }

    /** `_read_mdstat`, with the containers its loop got to collect. */
    method Read(es: seq<Entry>)
      requires Valid()
      modifies this`live, this`current, this`latest, this`previous, first, second
      ensures Valid() && Now() == AfterRead(old(Now()), es)
      ensures latest == if |es| <= 10 then es else es[..10]
      ensures previous == old(latest) && notices == old(notices)
    {
      hide Owned, Chain, Proper, NamesIn, Reversed, Holds;
      ClearOther();
      Switch();
      var k := 0;
      while k < |es|
        invariant 0 <= k <= |es|
        invariant Valid() && latest == Kept(es[..k]) && previous == old(latest)
      {
        KeptSnoc(es[..k], es[k]);
        assert es[..k + 1] == es[..k] + [es[k]];
        Collect(es[k]);
        k := k + 1;
      }
      assert es[..k] == es;
    }

    /** `_members_changed`. */
    method MembersChanged() returns (changed: bool)
      requires Valid()
      ensures changed <==> Changed(latest, previous)
    {
      changed := ListsDiffer(Current(), Spare(), latest, previous);
      if !changed {
        changed := ListsDiffer(Spare(), Current(), previous, latest);
      }
    }

    /** `_handle_mdstat`. */
    method HandleMdstat(reading: seq<Entry>)
      requires Valid()
      modifies this, first, second
      ensures Valid() && Now() == AfterPoll(old(Now()), reading)
    {
      hide Owned, Chain, Proper, NamesIn, Reversed, Holds, Kept, Covered, Changed;
      Read(reading);
      var changed := MembersChanged();
      if changed {
        notices := notices + 1;
      }
    }

    /** `_handle_inotify`. */
    method HandleInotify(events: seq<Event>)
      requires Valid()
      modifies this, first, second
      ensures Valid() && Now() == AfterBatch(old(Now()), events)
    {
      hide Owned, Chain, Proper, NamesIn, Reversed, Holds, Kept;
      var i := 0;
      while i < |events|
        invariant 0 <= i <= |events|
        invariant Valid() && Now() == AfterBatch(old(Now()), events[..i])
      {
        assert events[..i + 1][..i] == events[..i];
        match events[i] {
          case Watched(reading) =>
            notices := notices + 1;
            Read(reading);
          case Other =>
        }
        i := i + 1;
      }
      assert events[..i] == events;
    }

    /** `_event_watch` and `_handle_all`, over any number of turns. */
    method Watch(initial: seq<Entry>, steps: seq<Step>)
      requires Valid()
      modifies this, first, second
      ensures Valid() && Now() == AfterRun(AfterRead(old(Now()), initial), steps)
    {
      hide Owned, Chain, Proper, NamesIn, Reversed, Holds, AfterRead, AfterPoll, AfterBatch;
      Read(initial);
      ghost var v := Now();
      var i := 0;
      while i < |steps|
        invariant 0 <= i <= |steps|
        invariant Valid() && Now() == AfterRun(v, steps[..i])
      {
        assert steps[..i + 1][..i] == steps[..i];
        match steps[i] {
          case Poll(reading) => HandleMdstat(reading);
          case Batch(events) => HandleInotify(events);
        }
        i := i + 1;
      }
      assert steps[..i] == steps;
    }
  }

  lemma KeptSnoc(es: seq<Entry>, e: Entry)
    ensures Kept(Kept(es) + [e]) == Kept(es + [e])
  {
  }

  // ---- what a run guarantees ----

  /** No node sits in both buffers or twice in one, and none is lost. */
  lemma EachNodeOnce(live: set<DevMember>, a: multiset<DevMember>, b: multiset<DevMember>)
    requires multiset(live) == a + b
    ensures forall n :: a[n] + b[n] == if n in live then 1 else 0
  {
    forall n ensures a[n] + b[n] == if n in live then 1 else 0 {
      assert multiset(live)[n] == (a + b)[n];
    }
  }

  /** The readings of a batch, of a turn and of a run, in order. */
  function BatchReadings(events: seq<Event>): seq<seq<Entry>> {
    if events == [] then []
    else
      BatchReadings(events[..|events| - 1]) + EventReadings(events[|events| - 1])
  }

  function EventReadings(event: Event): seq<seq<Entry>> {
    match event
    case Watched(es) => [Kept(es)]
    case Other => []
  }

  function StepReadings(s: Step): seq<seq<Entry>> {
    match s
    case Poll(es) => [Kept(es)]
    case Batch(events) => BatchReadings(events)
  }

  function Readings(steps: seq<Step>): seq<seq<Entry>> {
    if steps == [] then [] else Readings(steps[..|steps| - 1]) + StepReadings(steps[|steps| - 1])
  }

  /** The view ends in the last two of the readings made so far. */
  ghost predicate EndsIn(v: View, history: seq<seq<Entry>>) {
    |history| >= 2 && v.latest == history[|history| - 1] && v.previous == history[|history| - 2]
  }

  lemma {:induction false} BatchKeepsLastTwo(v: View, history: seq<seq<Entry>>, events: seq<Event>)
    requires EndsIn(v, history)
    ensures EndsIn(AfterBatch(v, events), history + BatchReadings(events))
    decreases |events|
  {
    if events == [] {
      assert history + BatchReadings(events) == history;
    } else {
      hide *;
      var init, last := events[..|events| - 1], events[|events| - 1];
      BatchKeepsLastTwo(v, history, init);
      BatchStep(v, events);
      Regroup(history, BatchReadings(init), EventReadings(last));
      EventKeepsLastTwo(AfterBatch(v, init), history + BatchReadings(init), last);
    }
  }

  lemma EventKeepsLastTwo(v: View, history: seq<seq<Entry>>, event: Event)
    requires EndsIn(v, history)
    ensures EndsIn(AfterEvent(v, event), history + EventReadings(event))
  {
  }

  lemma BatchStep(v: View, events: seq<Event>)
    requires events != []
    ensures var init, last := events[..|events| - 1], events[|events| - 1];
            && AfterBatch(v, events) == AfterEvent(AfterBatch(v, init), last)
            && BatchReadings(events) == BatchReadings(init) + EventReadings(last)
  {
  }

  /** After any run the current buffer shows the last reading, and the other buffer the reading before it. */
  lemma {:induction false} BuffersHoldLastTwoReadings(v: View, history: seq<seq<Entry>>, steps: seq<Step>)
    requires EndsIn(v, history)
    ensures EndsIn(AfterRun(v, steps), history + Readings(steps))
    decreases |steps|
  {
    if steps == [] {
      assert history + Readings(steps) == history;
    } else {
      hide *;
      var init := steps[..|steps| - 1];
      var last := steps[|steps| - 1];
      BuffersHoldLastTwoReadings(v, history, init);
      RunStep(v, steps);
      Regroup(history, Readings(init), StepReadings(last));
      StepKeepsLastTwo(AfterRun(v, init), history + Readings(init), last);
    }
  }

  lemma StepKeepsLastTwo(v: View, history: seq<seq<Entry>>, s: Step)
    requires EndsIn(v, history)
    ensures EndsIn(AfterStep(v, s), history + StepReadings(s))
  {
    hide BatchReadings, AfterBatch, Changed;
    match s
    case Poll(es) =>
    case Batch(events) => BatchKeepsLastTwo(v, history, events);
  }

  lemma RunStep(v: View, steps: seq<Step>)
    requires steps != []
    ensures var init, last := steps[..|steps| - 1], steps[|steps| - 1];
            && AfterRun(v, steps) == AfterStep(AfterRun(v, init), last)
            && Readings(steps) == Readings(init) + StepReadings(last)
  {
    hide AfterStep, StepReadings;
  }

  lemma Regroup(a: seq<seq<Entry>>, b: seq<seq<Entry>>, c: seq<seq<Entry>>)
    ensures a + (b + c) == a + b + c
  {
  }

  /** A batch notifies at least once for every change between two of its readings. */
  lemma {:induction false} BatchNotifiesEveryReading(v: View, events: seq<Event>)
    ensures AfterBatch(v, events).notices == v.notices + |BatchReadings(events)|
    ensures AfterBatch(v, events).latest != v.latest ==> AfterBatch(v, events).notices > v.notices
    decreases |events|
  {
    if events == [] {
    } else {
      BatchNotifiesEveryReading(v, events[..|events| - 1]);
    }
  }

  /** A turn that ends with other devices than it began with has notified; a poll notifies only then. */
  lemma ChangeIsAnnounced(v: View, s: Step)
    requires Distinct(v.latest) && Distinct(AfterStep(v, s).latest)
    ensures Devices(AfterStep(v, s).latest) != Devices(v.latest) ==> AfterStep(v, s).notices > v.notices
    ensures s.Poll? ==> AfterStep(v, s).notices <= v.notices + 1
    ensures s.Poll? ==> (AfterStep(v, s).notices > v.notices <==> Devices(AfterStep(v, s).latest) != Devices(v.latest))
  {
    match s
    case Poll(es) => ChangedIffDevicesDiffer(Kept(es), v.latest);
    case Batch(events) => BatchNotifiesEveryReading(v, events);
  }

  /** The number of neighbouring readings of a history that differ. */
  ghost function Changes(history: seq<seq<Entry>>): nat {
    if |history| < 2 then 0
    else
      Changes(history[..|history| - 1]) +
      if Changed(history[|history| - 1], history[|history| - 2]) then 1 else 0
  }

  /** Over every run there are at least as many notifications as changes from one reading to the next. */
  lemma {:induction false} NoChangeGoesUnannounced(v: View, history: seq<seq<Entry>>, steps: seq<Step>)
    requires EndsIn(v, history)
    ensures AfterRun(v, steps).notices - v.notices >= Changes(history + Readings(steps)) - Changes(history)
    decreases |steps|
  {
    if steps == [] {
      assert history + Readings(steps) == history;
    } else {
      hide *;
      var init := steps[..|steps| - 1];
      var last := steps[|steps| - 1];
      NoChangeGoesUnannounced(v, history, init);
      BuffersHoldLastTwoReadings(v, history, init);
      RunStep(v, steps);
      Regroup(history, Readings(init), StepReadings(last));
      StepAnnouncesChanges(AfterRun(v, init), history + Readings(init), last);
    }
  }

  lemma StepAnnouncesChanges(v: View, history: seq<seq<Entry>>, s: Step)
    requires EndsIn(v, history)
    ensures AfterStep(v, s).notices - v.notices >= Changes(history + StepReadings(s)) - Changes(history)
  {
    hide AfterBatch, BatchReadings;
    match s
    case Poll(es) => assert (history + [Kept(es)])[..|history|] == history;
    case Batch(events) => {
      BatchNotifiesEveryReading(v, events);
      ChangesBounded(history, BatchReadings(events));
    }
  }

  lemma {:induction false} ChangesBounded(history: seq<seq<Entry>>, more: seq<seq<Entry>>)
    ensures Changes(history + more) <= Changes(history) + |more|
    decreases |more|
  {
    if more == [] {
      assert history + more == history;
    } else {
      assert (history + more)[..|history + more| - 1] == history + more[..|more| - 1];
      ChangesBounded(history, more[..|more| - 1]);
    }
  }
}
