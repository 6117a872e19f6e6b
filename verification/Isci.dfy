/** Discovering the SCU controller's phys and creating the ports they share. */
module Isci {
  import opened Wrappers
  import opened Selection

  class Phy {
    const number: nat
    /** The canonical path of the phy's port, where the link exists. */
    const portPath: Option<string>
    var m_pPort: Port?

    constructor (number: nat, portPath: Option<string>)
      ensures this.number == number && this.portPath == portPath && m_pPort == null
    {
      this.number, this.portPath, this.m_pPort := number, portPath, null;
    }

    /** Finds the port with this phy's path among the controller's, or creates it, and joins it. */
    method Discover(parent: Controller)
      modifies this`m_pPort, parent`m_Ports, parent.m_Ports
      ensures portPath.None? ==> m_pPort == old(m_pPort) && parent.m_Ports == old(parent.m_Ports)
      ensures portPath.None? ==> forall p :: p in parent.m_Ports ==> p.m_Phys == old(p.m_Phys)
      ensures portPath.Some? ==> m_pPort != null && m_pPort in parent.m_Ports && m_pPort.path == portPath.value
      ensures portPath.Some? ==>
                if m_pPort in old(parent.m_Ports) then
                  parent.m_Ports == old(parent.m_Ports) && GainedPhy(m_pPort, this)
                else
                  && parent.m_Ports == old(parent.m_Ports) + [m_pPort] && fresh(m_pPort) && m_pPort.m_Phys == [this]
                  && forall p :: p in old(parent.m_Ports) ==> p.path != portPath.value
      ensures forall p :: p in old(parent.m_Ports) && p != m_pPort ==> p.m_Phys == old(p.m_Phys)
    {
      if portPath.Some? {
        var port := parent.GetPortByPath(portPath.value);
        m_pPort := port;
        if port == null {
          port := new Port(portPath.value);
          m_pPort := port;
          parent.AttachPort(port);
        }
        port.AttachPhy(this);
      }
    }

    method AttachPort(port: Port)
      modifies this`m_pPort
      ensures m_pPort == port
    {
      m_pPort := port;
    }
  }

  twostate predicate GainedPhy(port: Port, phy: Phy)
    reads port
  {
    port.m_Phys == old(port.m_Phys) + [phy]
  }

  class Port {
    const path: string
    var m_Phys: seq<Phy>

    constructor (path: string)
      ensures this.path == path && m_Phys == []
    {
      this.path, m_Phys := path, [];
    }

    method AttachPhy(phy: Phy)
      modifies this, phy`m_pPort
      ensures m_Phys == old(m_Phys) + [phy] && phy.m_pPort == this
    {
      m_Phys := m_Phys + [phy];
      phy.AttachPort(this);
    }
  }

  /** The phys of the list that have the given port path, in order. */
  function WithPath(phys: seq<Phy>, path: string): (r: seq<Phy>)
    ensures Selects(phys, (p: Phy) => p.portPath == Some(path), r)
  {
    ghost var picked := (p: Phy) => p.portPath == Some(path);
    if phys == [] then
      SelectsNothing(picked);
      []
    else
      var init, last := phys[..|phys| - 1], phys[|phys| - 1];
      SelectsNext(init, picked, WithPath(init, path), last);
      assert init + [last] == phys;
      WithPath(init, path) + if last.portPath == Some(path) then [last] else []
  }

  class Controller {
    var m_Phys: seq<Phy>
    var m_Ports: seq<Port>

    constructor ()
      ensures m_Phys == [] && m_Ports == []
    {
      m_Phys, m_Ports := [], [];
    }

    method GetPortByPath(path: string) returns (r: Port?)
      ensures r != null ==> r in m_Ports && r.path == path
      ensures r == null ==> forall p :: p in m_Ports ==> p.path != path
    {
      for i := 0 to |m_Ports|
        invariant forall k :: 0 <= k < i ==> m_Ports[k].path != path
      {
        if m_Ports[i].path == path {
          return m_Ports[i];
        }
      }
      return null;
    }

    method AttachPort(port: Port)
      modifies this`m_Ports
      ensures m_Ports == old(m_Ports) + [port]
    {
      m_Ports := m_Ports + [port];
    }

    /** After the first `n` phys: one port per path that occurs among them, holding exactly the phys with
        that path, which point back to it. */
    ghost predicate Shared(n: nat)
      reads this, m_Ports, m_Phys
    {
      && n <= |m_Phys|
      && (forall i, j :: 0 <= i < j < |m_Ports| ==> m_Ports[i].path != m_Ports[j].path)
      && (forall p :: p in m_Ports ==> p.m_Phys == WithPath(m_Phys[..n], p.path) && p.m_Phys != [])
      && (forall k :: 0 <= k < n && m_Phys[k].portPath.Some? ==>
            && m_Phys[k].m_pPort != null && m_Phys[k].m_pPort in m_Ports
            && m_Phys[k].m_pPort.path == m_Phys[k].portPath.value)
    }

    /** `discover` up to the ports' own discovery. Each host contributes its phys' port links; phys are
        numbered from four times the host's id. */
    method Discover(hosts: seq<(nat, seq<Option<string>>)>)
      requires m_Phys == [] && m_Ports == []
      modifies this
      ensures Shared(|m_Phys|)
      ensures |m_Phys| == Start(hosts, |hosts|)
      ensures forall h, j :: 0 <= h < |hosts| && 0 <= j < |hosts[h].1| ==>
                var k := Start(hosts, h) + j;
                k < |m_Phys| && m_Phys[k].number == hosts[h].0 * 4 + j && m_Phys[k].portPath == hosts[h].1[j]
    {
      var phys := CreatePhys(hosts);
      forall h, j | 0 <= h < |hosts| && 0 <= j < |hosts[h].1|
        ensures var k := Start(hosts, h) + j;
                k < |Links(hosts)| && Links(hosts)[k] == (hosts[h].0 * 4 + j, hosts[h].1[j])
      {
        LinksAt(hosts, h, j);
      }
      LinksCount(hosts);
      m_Phys := phys;
      for i := 0 to |m_Phys|
        invariant m_Phys == phys && Shared(i)
        invariant forall k :: 0 <= k < |phys| ==> fresh(phys[k])
        invariant forall k :: 0 <= k < |m_Ports| ==> fresh(m_Ports[k])
      {
        DiscoverPhy(i);
      }
    }

    /** One turn of the loop over the phys. */
    method DiscoverPhy(i: nat)
      requires i < |m_Phys| && Shared(i)
      modifies this`m_Ports, m_Phys, m_Ports
      ensures m_Phys == old(m_Phys) && Shared(i + 1)
      ensures forall k :: 0 <= k < |m_Ports| ==> m_Ports[k] in old(m_Ports) || fresh(m_Ports[k])
    {
      ghost var phys := m_Phys;
      hide WithPath;
      SharedStep(phys, i);
      PathIsNew(this, i);
      m_Phys[i].Discover(this);
      assert m_Phys == phys;
    }
  }

  method CreatePhys(hosts: seq<(nat, seq<Option<string>>)>) returns (phys: seq<Phy>)
    ensures |phys| == |Links(hosts)| && forall k :: 0 <= k < |phys| ==> fresh(phys[k])
    ensures forall k :: 0 <= k < |phys| ==> phys[k].number == Links(hosts)[k].0 && phys[k].portPath == Links(hosts)[k].1
  {
    phys := [];
    assert hosts[..0] == [];
    for i := 0 to |hosts|
      invariant |phys| == |Links(hosts[..i])| && forall k :: 0 <= k < |phys| ==> fresh(phys[k])
      invariant forall k :: 0 <= k < |phys| ==>
                  phys[k].number == Links(hosts[..i])[k].0 && phys[k].portPath == Links(hosts[..i])[k].1
    {
      var number, links := hosts[i].0 * 4, hosts[i].1;
      ghost var front := Links(hosts[..i]);
      assert hosts[..i + 1][..i] == hosts[..i];
      for j := 0 to |links|
        invariant number == hosts[i].0 * 4 + j
        invariant |phys| == |front| + j && forall k :: 0 <= k < |phys| ==> fresh(phys[k])
        invariant forall k :: 0 <= k < |phys| ==>
                    (phys[k].number, phys[k].portPath) ==
                    if k < |front| then front[k] else (hosts[i].0 * 4 + k - |front|, links[k - |front|])
      {
        var phy := new Phy(number, links[j]);
        phys := phys + [phy];
        number := number + 1;
      }
    }
    assert hosts[..|hosts|] == hosts;
  }

  /** The number and the port link of every phy, in the order of discovery. */
  function Links(hosts: seq<(nat, seq<Option<string>>)>): seq<(nat, Option<string>)> {
    if hosts == [] then [] else
      var (id, links) := hosts[|hosts| - 1];
      Links(hosts[..|hosts| - 1]) + seq(|links|, j requires 0 <= j < |links| => (id * 4 + j, links[j]))
  }

  /** The number of phys of the first `h` hosts. */
  function Start(hosts: seq<(nat, seq<Option<string>>)>, h: nat): nat
    requires h <= |hosts|
  {
    if h == 0 then 0 else Start(hosts, h - 1) + |hosts[h - 1].1|
  }

  lemma {:induction false} StartOfFront(hosts: seq<(nat, seq<Option<string>>)>, n: nat, h: nat)
    requires h <= n <= |hosts|
    ensures Start(hosts[..n], h) == Start(hosts, h)
  {
    if h == 0 {
    } else {
      StartOfFront(hosts, n, h - 1);
    }
  }

  lemma {:induction false} LinksCount(hosts: seq<(nat, seq<Option<string>>)>)
    ensures |Links(hosts)| == Start(hosts, |hosts|)
  {
    if hosts == [] {
    } else {
      LinksCount(hosts[..|hosts| - 1]);
      StartOfFront(hosts, |hosts| - 1, |hosts| - 1);
    }
  }

  lemma {:induction false} LinksAt(hosts: seq<(nat, seq<Option<string>>)>, h: nat, j: nat)
    requires h < |hosts| && j < |hosts[h].1|
    ensures var k := Start(hosts, h) + j;
            k < |Links(hosts)| && Links(hosts)[k] == (hosts[h].0 * 4 + j, hosts[h].1[j])
  {
    var n := |hosts| - 1;
    LinksCount(hosts[..n]);
    StartOfFront(hosts, n, n);
    if h == n {
    } else {
      LinksAt(hosts[..n], h, j);
      StartOfFront(hosts, n, h);
    }
  }

  lemma SharedStep(phys: seq<Phy>, i: nat)
    requires i < |phys|
    ensures forall path: string :: WithPath(phys[..i + 1], path) ==
              WithPath(phys[..i], path) + if phys[i].portPath == Some(path) then [phys[i]] else []
  {
    assert phys[..i + 1][..i] == phys[..i];
  }

  /** A path no port has yet occurs on no phy discovered so far. */
  lemma PathIsNew(c: Controller, i: nat)
    requires c.Shared(i) && i < |c.m_Phys|
    ensures c.m_Phys[i].portPath.Some? && (forall p :: p in c.m_Ports ==> p.path != c.m_Phys[i].portPath.value) ==>
              WithPath(c.m_Phys[..i], c.m_Phys[i].portPath.value) == []
  {
    hide WithPath;
    var phy := c.m_Phys[i];
    if phy.portPath.Some? && forall p :: p in c.m_Ports ==> p.path != phy.portPath.value {
      NoneWithPath(c.m_Phys[..i], phy.portPath.value);
    }
  }

  lemma {:induction false} NoneWithPath(phys: seq<Phy>, path: string)
    requires forall k :: 0 <= k < |phys| ==> phys[k].portPath != Some(path)
    ensures WithPath(phys, path) == []
  {
    if phys == [] {
    } else {
      NoneWithPath(phys[..|phys| - 1], path);
    }
  }

  lemma {:induction false} WithPathMembers(phys: seq<Phy>, path: string)
    ensures forall p :: p in WithPath(phys, path) <==> p in phys && p.portPath == Some(path)
    ensures (forall i, j :: 0 <= i < j < |phys| ==> phys[i] != phys[j]) ==>
              forall i, j :: 0 <= i < j < |WithPath(phys, path)| ==> WithPath(phys, path)[i] != WithPath(phys, path)[j]
  {
    hide Selects;
    if phys == [] {
    } else {
      WithPathMembers(phys[..|phys| - 1], path);
      assert phys == phys[..|phys| - 1] + [phys[|phys| - 1]];
    }
  }

  /** The ports partition the phys that have a port path: two phys share a port exactly when their paths
      are equal, and a phy is in the list of its own port and of no other. */
  lemma PortsPartitionPhys(c: Controller, i: nat, j: nat, port: Port)
    requires c.Shared(|c.m_Phys|) && i < |c.m_Phys| && j < |c.m_Phys| && port in c.m_Ports
    requires c.m_Phys[i].portPath.Some? && c.m_Phys[j].portPath.Some?
    ensures c.m_Phys[i].m_pPort == c.m_Phys[j].m_pPort <==> c.m_Phys[i].portPath == c.m_Phys[j].portPath
    ensures c.m_Phys[i] in port.m_Phys <==> port == c.m_Phys[i].m_pPort
    ensures exists k :: 0 <= k < |c.m_Phys| && c.m_Phys[k].portPath == Some(port.path)
  {
    var phys := c.m_Phys;
    assert phys[..|phys|] == phys;
    WithPathMembers(phys, port.path);
    assert port.m_Phys[0] in WithPath(phys, port.path);
  }
}
