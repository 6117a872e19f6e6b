/** Adding spares to an array, growing it, and undoing the addition when the growth fails. */
module Growing {
  import opened Wrappers
  import opened Selection

  datatype Command =
    | AddSpares(raid: string, devices: seq<string>)
    | GrowTo(raid: string, disks: nat)
    | Remove(raid: string, device: string)
    | ZeroSuperblock(device: string)

  /** mdadm as an arbitrary oracle: whether the n-th command succeeds. Every command is logged. */
  class Shell {
    const succeeds: nat -> bool
    var log: seq<Command>

    constructor (succeeds: nat -> bool)
      ensures this.succeeds == succeeds && log == []
    {
      this.succeeds, log := succeeds, [];
    }

    method Run(command: Command) returns (ok: bool)
      modifies this
      ensures log == old(log) + [command] && ok == succeeds(|old(log)|)
    {
      ok := succeeds(|log|);
      log := log + [command];
    }
  }

  datatype Usage = Unknown | ArrayMember | PassThru | OfflineArray | Spare | OtherUsage
  datatype State = Normal | Failed | SmartEventTriggered | OtherState
  /** `Crashed` stands for following a null pointer. */
  datatype Status = StatusOk | StatusFailed | InvalidState | Crashed

  class EndDevice {
    /** Whether the device is a block device at all. */
    const isBlock: bool
    const name: string
    const hasController: bool
    const isSystem: bool
    const usage: Usage
    const state: State
    const raid: Option<Array>

    constructor (isBlock: bool, name: string, hasController: bool, isSystem: bool, usage: Usage, state: State,
                 raid: Option<Array>)
      ensures this.isBlock == isBlock && this.name == name && this.hasController == hasController
      ensures this.isSystem == isSystem && this.usage == usage && this.state == state && this.raid == raid
    {
      this.isBlock, this.name, this.hasController, this.isSystem := isBlock, name, hasController, isSystem;
      this.usage, this.state, this.raid := usage, state, raid;
    }
  }

  class Array {
    const name: string
    const shell: Shell
    var m_Busy: bool
    var m_BlockDevices: seq<EndDevice>

    constructor (name: string, shell: Shell, busy: bool, devices: seq<EndDevice>)
      ensures this.name == name && this.shell == shell && m_Busy == busy && m_BlockDevices == devices
    {
      this.name, this.shell, m_Busy, m_BlockDevices := name, shell, busy, devices;
    }

    /** The device is a spare of this array already. */
    predicate IsOwnSpare(d: EndDevice) {
      d.raid == Some(this) && d.usage == Spare
    }

    /** The device may be given to mdadm, or is a spare of this array already. */
    predicate Acceptable(d: EndDevice) {
      d.isBlock && (IsOwnSpare(d) || (d.hasController && !d.isSystem && d.usage == PassThru && d.state == Normal))
    }

    predicate AllAcceptable(devices: seq<EndDevice>) {
      forall i :: 0 <= i < |devices| ==> Acceptable(devices[i])
    }

    /** The devices that are not spares of this array yet, in order. */
    function NewSpares(devices: seq<EndDevice>): (r: seq<EndDevice>)
      ensures Selects(devices, (d: EndDevice) => !(d.raid == Some(this) && d.usage == Spare), r)
    {
      ghost var picked := (d: EndDevice) => !(d.raid == Some(this) && d.usage == Spare);
      if devices == [] then
        SelectsNothing(picked);
        []
      else
        var init, last := devices[..|devices| - 1], devices[|devices| - 1];
        SelectsNext(init, picked, NewSpares(init), last);
        assert init + [last] == devices;
        NewSpares(init) + if IsOwnSpare(last) then [] else [last]
    }

    /** `addSpare`: refuses before any command unless every device is acceptable. */
    method AddSpare(devices: seq<EndDevice>) returns (status: Status)
      modifies shell
      ensures status == InvalidState <==>
              exists d :: d in devices && (!d.isBlock || (!(d.raid == Some(this) && d.usage == Spare)
                && (!d.hasController || d.isSystem || d.usage != PassThru || d.state != Normal)))
      ensures !AllAcceptable(devices) ==> status == InvalidState && shell.log == old(shell.log)
      ensures AllAcceptable(devices) && NewSpares(devices) == [] ==> status == StatusOk && shell.log == old(shell.log)
      ensures AllAcceptable(devices) && NewSpares(devices) != [] ==>
                && shell.log == old(shell.log) + [AddSpares(name, Names(NewSpares(devices)))]
                && status == if shell.succeeds(|old(shell.log)|) then StatusOk else StatusFailed
    {
      var ok, names := CollectNames(devices);
      if !ok {
        return InvalidState;
      }
      if |names| == 0 {
        return StatusOk;
      }
      ok := shell.Run(AddSpares(name, names));
      return if ok then StatusOk else StatusFailed;
    }

    /** The loop of `addSpare`: checks device after device and collects the names to add. */
    method CollectNames(devices: seq<EndDevice>) returns (ok: bool, names: seq<string>)
      ensures ok <==> AllAcceptable(devices)
      ensures ok ==> names == Names(NewSpares(devices))
    {
      names := [];
      assert devices[..0] == [];
      for i := 0 to |devices|
        invariant AllAcceptable(devices[..i]) && names == Names(NewSpares(devices[..i]))
      {
        var d := devices[i];
        NewSparesStep(devices, i);
        if !d.isBlock { return false, []; }
        if IsOwnSpare(d) { continue; }
        if !d.hasController { return false, []; }
        if d.isSystem { return false, []; }
        if d.usage != PassThru { return false, []; }
        if d.state != Normal { return false, []; }
        names := names + [d.name];
      }
      assert devices[..|devices|] == devices;
      return true, names;
    }

    lemma NewSparesStep(devices: seq<EndDevice>, i: nat)
      requires i < |devices|
      ensures AllAcceptable(devices[..i + 1]) <==> AllAcceptable(devices[..i]) && Acceptable(devices[i])
      ensures AllAcceptable(devices) ==> Acceptable(devices[i])
      ensures Names(NewSpares(devices[..i + 1])) ==
              Names(NewSpares(devices[..i])) + if IsOwnSpare(devices[i]) then [] else [devices[i].name]
    {
      hide Selects, Names, IsOwnSpare, Acceptable, NewSpares;
      assert devices[..i + 1] == devices[..i] + [devices[i]];
      NewSparesNext(devices[..i], devices[i]);
      NamesAppend(NewSpares(devices[..i]), devices[i]);
    }

    lemma NewSparesNext(devices: seq<EndDevice>, d: EndDevice)
      ensures NewSpares(devices + [d]) == NewSpares(devices) + if IsOwnSpare(d) then [] else [d]
    {
      hide Selects;
      assert (devices + [d])[..|devices|] == devices;
    }

    predicate AllBlocks(devices: seq<EndDevice>) {
      forall i :: 0 <= i < |devices| ==> devices[i].isBlock
    }

    /** `getSpareableEndDevices`: the devices that are not spares of any array; `ok` is false where it follows
        the null pointer that the cast of a device that is no block device yields. */
    method GetSpareableEndDevices(devices: seq<EndDevice>) returns (ok: bool, r: seq<EndDevice>)
      ensures ok <==> AllBlocks(devices)
      ensures ok ==> r == NotSpare(devices)
    {
      hide NotSpare, Selects;
      r := [];
      assert devices[..0] == [];
      NothingSpareable();
      for i := 0 to |devices|
        invariant AllBlocks(devices[..i]) && r == NotSpare(devices[..i])
      {
        NotSpareStep(devices, i);
        if !devices[i].isBlock { return false, []; }
        if devices[i].usage != Spare {
          r := r + [devices[i]];
        }
      }
      assert devices[..|devices|] == devices;
      return true, r;
    }

    /** `getEndDevices` without the spares, as far as `grow` uses it: the number of member disks. */
    method CountMembers() returns (n: nat)
      ensures n == |set i | 0 <= i < |m_BlockDevices| && m_BlockDevices[i].usage == ArrayMember|
    {
      n := 0;
      ghost var counted: set<int> := {};
      for i := 0 to |m_BlockDevices|
        invariant counted == set k | 0 <= k < i && m_BlockDevices[k].usage == ArrayMember
        invariant n == |counted|
      {
        if m_BlockDevices[i].usage == ArrayMember {
          n := n + 1;
          counted := counted + {i};
        }
      }
    }

    /** `removeSpare` for one device; `force` skips its checks. */
    method RemoveSpare(d: EndDevice, force: bool) returns (status: Status)
      modifies shell
      ensures status == InvalidState <==>
              !force && (d.raid != Some(this) || !d.isBlock || d.usage != Spare
                         || (d.state != Normal && d.state != Failed && d.state != SmartEventTriggered))
      ensures !force && !Removable(this, d) ==> status == InvalidState && shell.log == old(shell.log)
      ensures force || Removable(this, d) ==>
                && shell.log == old(shell.log) + [Remove(name, d.name)]
                                + (if shell.succeeds(|old(shell.log)|) then [ZeroSuperblock(d.name)] else [])
                && status == if shell.succeeds(|old(shell.log)|) && shell.succeeds(|old(shell.log)| + 1)
                             then StatusOk else StatusFailed
    {
      if !force {
        if d.raid != Some(this) { return InvalidState; }
        if !d.isBlock { return InvalidState; }
        if d.usage != Spare { return InvalidState; }
        if d.state != Normal && d.state != Failed && d.state != SmartEventTriggered { return InvalidState; }
      }
      var ok := shell.Run(Remove(name, d.name));
      if ok {
        ok := shell.Run(ZeroSuperblock(d.name));
      }
      return if ok then StatusOk else StatusFailed;
    }

    /** `removeSpare` for a list, forced: tries every device, whatever happened to the ones before, and
        reports success only if every command it issued succeeded. */
    method RemoveSpares(devices: seq<EndDevice>) returns (status: Status)
      modifies shell
      ensures status == if forall k :: |old(shell.log)| <= k < |shell.log| ==> shell.succeeds(k)
                        then StatusOk else StatusFailed
      ensures shell.log == old(shell.log) + Removals(name, Names(devices), shell.succeeds, |old(shell.log)|)
    {
      hide Names, Removals;
      status := StatusOk;
      ghost var start := |shell.log|;
      NoRemovals(name, shell.succeeds, start);
      assert devices[..0] == [];
      for i := 0 to |devices|
        invariant shell.log == old(shell.log) + Removals(name, Names(devices[..i]), shell.succeeds, start)
        invariant status == if forall k :: start <= k < |shell.log| ==> shell.succeeds(k)
                            then StatusOk else StatusFailed
      {
        assert devices[..i + 1] == devices[..i] + [devices[i]];
        NamesAppend(devices[..i], devices[i]);
        RemovalsAppend(name, Names(devices[..i]), devices[i].name, shell.succeeds, start);
        var local := RemoveSpare(devices[i], true);
        if local != StatusOk {
          status := local;
        }
      }
      assert devices[..|devices|] == devices;
    }

    /** `grow`. What it commands is a function of the devices and of what mdadm answers. */
    method Grow(devices: seq<EndDevice>) returns (status: Status)
      modifies shell
      ensures m_Busy || !AllAcceptable(devices) ==>
                && shell.log == old(shell.log)
                && status == if m_Busy || AllBlocks(devices) then InvalidState else Crashed
      ensures !m_Busy && AllAcceptable(devices) ==>
                var names := Names(NewSpares(devices));
                var members := |set i | 0 <= i < |m_BlockDevices| && m_BlockDevices[i].usage == ArrayMember|;
                var start := |old(shell.log)|;
                var added := if names == [] then [] else [AddSpares(name, names)];
                var grown := start + |added|;
                if names != [] && !shell.succeeds(start) then
                  status == StatusFailed && shell.log == old(shell.log) + added
                else
                  var attempt := added + [GrowTo(name, members + |devices|)];
                  if shell.succeeds(grown) then status == StatusOk && shell.log == old(shell.log) + attempt
                  else
                    && status == StatusFailed
                    && shell.log == old(shell.log) + attempt + Removals(name, names, shell.succeeds, grown + 1)
    {
      hide Names, NewSpares, NotSpare, Removal, Removals;
      if m_Busy {
        return InvalidState;
      }
      var ok, addedToSpare := GetSpareableEndDevices(devices);
      if !ok {
        return Crashed;
      }
      status := AddSpare(devices);
      var members := CountMembers();
      if status == StatusOk {
        SpareableAreNew(this, devices);
        ok := shell.Run(GrowTo(name, members + |devices|));
        if !ok {
          var undone := RemoveSpares(addedToSpare);
          status := StatusFailed;
        }
      }
    }
  }

  /** Every device of the list that passes the checks of an unforced removal. */
  predicate Removable(a: Array, d: EndDevice) {
    d.raid == Some(a) && d.isBlock && d.usage == Spare && d.state != OtherState
  }

  function Names(devices: seq<EndDevice>): (r: seq<string>)
    ensures |r| == |devices| && forall i :: 0 <= i < |r| ==> r[i] == devices[i].name
  {
    if devices == [] then [] else [devices[0].name] + Names(devices[1..])
  }

  lemma NamesAppend(devices: seq<EndDevice>, d: EndDevice)
    ensures Names(devices + [d]) == Names(devices) + [d.name]
  {
  }

  function NotSpare(devices: seq<EndDevice>): (r: seq<EndDevice>)
    ensures Selects(devices, (d: EndDevice) => d.usage != Spare, r)
  {
    ghost var picked := (d: EndDevice) => d.usage != Spare;
    if devices == [] then
      SelectsNothing(picked);
      []
    else
      var init, last := devices[..|devices| - 1], devices[|devices| - 1];
      SelectsNext(init, picked, NotSpare(init), last);
      assert init + [last] == devices;
      NotSpare(init) + if last.usage != Spare then [last] else []
  }

  lemma NothingSpareable()
    ensures NotSpare([]) == []
  {
  }

  lemma NotSpareStep(devices: seq<EndDevice>, i: nat)
    requires i < |devices|
    ensures NotSpare(devices[..i + 1]) ==
            NotSpare(devices[..i]) + if devices[i].usage != Spare then [devices[i]] else []
  {
    assert devices[..i + 1][..i] == devices[..i];
  }

  /** The commands that remove one device: its superblock is cleared only if it was let go. */
  function Removal(raid: string, device: string, succeeds: nat -> bool, at: nat): seq<Command> {
    [Remove(raid, device)] + if succeeds(at) then [ZeroSuperblock(device)] else []
  }

  function Removals(raid: string, devices: seq<string>, succeeds: nat -> bool, at: nat): seq<Command> {
    if devices == [] then [] else
      var first := Removal(raid, devices[0], succeeds, at);
      first + Removals(raid, devices[1..], succeeds, at + |first|)
  }

  lemma NoRemovals(raid: string, succeeds: nat -> bool, at: nat)
    ensures Names([]) == [] && Removals(raid, [], succeeds, at) == []
  {
  }

  lemma {:induction false} RemovalsAppend(raid: string, devices: seq<string>, d: string, succeeds: nat -> bool, at: nat)
    ensures var front := Removals(raid, devices, succeeds, at);
            Removals(raid, devices + [d], succeeds, at) == front + Removal(raid, d, succeeds, at + |front|)
  {
    if devices == [] {
      assert ([] + [d])[1..] == [];
    } else {
      var first := Removal(raid, devices[0], succeeds, at);
      assert (devices + [d])[1..] == devices[1..] + [d];
      RemovalsAppend(raid, devices[1..], d, succeeds, at + |first|);
    }
  }

  /** Where `addSpare` accepts all devices, "not a spare of any array" and "not a spare of this one" pick
      out the same devices: the rollback names what was added. */
  lemma {:induction false} SpareableAreNew(a: Array, devices: seq<EndDevice>)
    requires a.AllAcceptable(devices)
    ensures NotSpare(devices) == a.NewSpares(devices)
  {
    if devices == [] {
    } else {
      SpareableAreNew(a, devices[..|devices| - 1]);
    }
  }

  /** Without that check the two would differ: a spare of another array. */
  lemma ForeignSpareDiffers(a: Array, d: EndDevice)
    requires d.usage == Spare && d.raid != Some(a)
    ensures NotSpare([d]) != a.NewSpares([d])
  {
    assert [d][..0] == [];
  }

  /** The devices a log tries to remove. */
  function RemovedIn(log: seq<Command>): seq<string> {
    if log == [] then [] else (if log[0].Remove? then [log[0].device] else []) + RemovedIn(log[1..])
  }

  /** A log that only removes devices from the array, and clears a superblock right behind every successful removal
      of its device and nowhere else. */
  ghost predicate Undoes(log: seq<Command>, raid: string, succeeds: nat -> bool, at: nat) {
    && (forall i :: 0 <= i < |log| ==> log[i].Remove? || log[i].ZeroSuperblock?)
    && (forall i :: 0 <= i < |log| && log[i].Remove? ==> log[i].raid == raid)
    && (forall i :: 0 <= i < |log| && log[i].ZeroSuperblock? ==>
          i > 0 && log[i - 1] == Remove(raid, log[i].device) && succeeds(at + i - 1))
    && (forall i :: 0 <= i < |log| && log[i].Remove? && succeeds(at + i) ==>
          i + 1 < |log| && log[i + 1] == ZeroSuperblock(log[i].device))
  }

  /** Whatever mdadm answers, the rollback attempts to remove exactly the given devices, in order, and does
      nothing else than undo. */
  lemma {:induction false} RollbackRemovesExactly(raid: string, devices: seq<string>, succeeds: nat -> bool, at: nat)
    ensures var log := Removals(raid, devices, succeeds, at);
            RemovedIn(log) == devices && Undoes(log, raid, succeeds, at)
  {
    hide *;
    if devices == [] {
      NothingUndone(raid, succeeds, at);
    } else {
      var first := Removal(raid, devices[0], succeeds, at);
      RollbackRemovesExactly(raid, devices[1..], succeeds, at + |first|);
      RollbackStep(raid, devices, succeeds, at);
    }
  }

  lemma NothingUndone(raid: string, succeeds: nat -> bool, at: nat)
    ensures var log := Removals(raid, [], succeeds, at);
            RemovedIn(log) == [] && Undoes(log, raid, succeeds, at)
  {
  }

  lemma RollbackStep(raid: string, devices: seq<string>, succeeds: nat -> bool, at: nat)
    requires devices != []
    requires var first := Removal(raid, devices[0], succeeds, at);
             var rest := Removals(raid, devices[1..], succeeds, at + |first|);
             RemovedIn(rest) == devices[1..] && Undoes(rest, raid, succeeds, at + |first|)
    ensures var log := Removals(raid, devices, succeeds, at);
            RemovedIn(log) == devices && Undoes(log, raid, succeeds, at)
  {
    hide Removal, Undoes, RemovedIn;
    var first := Removal(raid, devices[0], succeeds, at);
    var rest := Removals(raid, devices[1..], succeeds, at + |first|);
    RemovedInConcat(first, rest);
    RemovedInRemoval(raid, devices[0], succeeds, at);
    UndoesConcat(first, rest, raid, succeeds, at);
    assert devices == [devices[0]] + devices[1..];
  }

  lemma RemovedInRemoval(raid: string, device: string, succeeds: nat -> bool, at: nat)
    ensures RemovedIn(Removal(raid, device, succeeds, at)) == [device]
    ensures Undoes(Removal(raid, device, succeeds, at), raid, succeeds, at)
  {
    var first := Removal(raid, device, succeeds, at);
    var rest := first[1..];
    assert rest == if succeeds(at) then [ZeroSuperblock(device)] else [];
    if succeeds(at) {
      assert rest[1..] == [];
      assert RemovedIn(rest) == [];
    }
  }

  lemma UndoesConcat(a: seq<Command>, b: seq<Command>, raid: string, succeeds: nat -> bool, at: nat)
    requires Undoes(a, raid, succeeds, at) && Undoes(b, raid, succeeds, at + |a|)
    ensures Undoes(a + b, raid, succeeds, at)
  {
    var log := a + b;
    forall i | 0 <= i < |log|
      ensures log[i].Remove? || log[i].ZeroSuperblock?
      ensures log[i].Remove? ==> log[i].raid == raid
      ensures log[i].ZeroSuperblock? ==> i > 0 && log[i - 1] == Remove(raid, log[i].device) && succeeds(at + i - 1)
      ensures log[i].Remove? && succeeds(at + i) ==> i + 1 < |log| && log[i + 1] == ZeroSuperblock(log[i].device)
    {
      if i < |a| {
        assert log[i] == a[i] && (i > 0 ==> log[i - 1] == a[i - 1]) && (i + 1 < |a| ==> log[i + 1] == a[i + 1]);
      } else {
        var k := i - |a|;
        assert log[i] == b[k] && (k > 0 ==> log[i - 1] == b[k - 1]) && at + |a| + k - 1 == at + i - 1;
        assert k + 1 < |b| ==> log[i + 1] == b[k + 1];
      }
    }
  }

  lemma {:induction false} RemovedInConcat(a: seq<Command>, b: seq<Command>)
    ensures RemovedIn(a + b) == RemovedIn(a) + RemovedIn(b)
  {
    if a == [] {
      assert a + b == b;
    } else {
      assert (a + b)[1..] == a[1..] + b;
      RemovedInConcat(a[1..], b);
    }
  }
}
