/** Free space, computed twice: in bytes for an array and in sectors for each of its disks. */
module Capacity {
  import opened Arithmetic

  const IMSM_RESERVED_SECTORS: nat := 4096
  const MPB_SECTOR_CNT: nat := 2210
  const DEFAULT_SECTOR_SIZE: nat := 512
  /** 64 PiB. */
  const MAX_BYTES: nat := 0x100_0000_0000_0000
  const TWO64: nat := 0x1_0000_0000_0000_0000

  /** The value an unsigned 64-bit variable keeps. */
  function U64(x: nat): (r: nat)
    ensures r < TWO64 && r <= x && (x < TWO64 ==> r == x)
  {
    x % TWO64
  }

  class Disk {
    const serial: string
    const totalSize: nat
    var m_BlocksTotal: nat
    var m_BlocksFree: nat

    constructor (serial: string, totalSize: nat, blocksTotal: nat)
      ensures this.serial == serial && this.totalSize == totalSize && m_BlocksTotal == blocksTotal
    {
      this.serial, this.totalSize, m_BlocksTotal, m_BlocksFree := serial, totalSize, blocksTotal, blocksTotal;
    }

    /** The loop of `determineBlocksFree` over the array's volumes. */
    method Survey(volumes: seq<Volume>, s: nat)
      returns (totalBlocks: nat, occupiedBlocks: nat, stripSize: nat, volumeCount: nat)
      requires s > 0
      ensures var mine := Mine(volumes, serial);
              && volumeCount == |mine| && stripSize == LastStrip(mine) && totalBlocks == LeastSectors(mine, s)
              && (ComponentsFit(mine) && OccupiedSectors(mine, s) < TWO64 ==>
                    occupiedBlocks == OccupiedSectors(mine, s))
    {
      hide Mine, LeastSectors, OccupiedSectors, LastStrip, ComponentsFit, LeastQuotient;
      totalBlocks, occupiedBlocks, stripSize, volumeCount := TWO64 - 1, 0, 0, 0;
      assert volumes[..0] == [];
      NoVolumes(serial, s);
      for i := 0 to |volumes|
        invariant var mine := Mine(volumes[..i], serial);
                  && volumeCount == |mine| && stripSize == LastStrip(mine) && totalBlocks == LeastSectors(mine, s)
                  && (ComponentsFit(mine) && OccupiedSectors(mine, s) < TWO64 ==>
                        occupiedBlocks == OccupiedSectors(mine, s))
      {
        var volume := volumes[i];
        ghost var mine := Mine(volumes[..i], serial);
        MineStep(volumes, i, serial);
        OneMoreVolume(mine, volume, s);
        ComponentsOf(mine, volume);
        var member := volume.HasMember(serial);
        if member {
          occupiedBlocks := U64(occupiedBlocks + U64(volume.componentSize * 1024) / s);
          occupiedBlocks := U64(occupiedBlocks + IMSM_RESERVED_SECTORS);
          stripSize := volume.stripSize;
          volumeCount := volumeCount + 1;
          totalBlocks := volume.LeastMember(s, totalBlocks);
        } else {
          assert mine + [] == mine;
        }
      }
      assert volumes[..|volumes|] == volumes;
    }

    /** The free sectors are the exact ones, unless something overflowed. */
    ghost predicate HasDetermined(volumes: seq<Volume>)
      reads this
    {
      var mine, s := Mine(volumes, serial), SectorSize(volumes);
      SectorsFit(mine, s) ==> m_BlocksFree == FreeSectors(mine, s, m_BlocksTotal)
    }

    /** A disk in no volume is all free, and one in several volumes not at all. In one volume it has the sectors of the
        volume's smallest disk, less the component, 4096 reserved and 2210 metadata sectors; nothing, when these are
        too many or not even a strip is left. */
    ghost predicate IsFreeAsUsed(volumes: seq<Volume>)
      reads this
    {
      && ((forall v :: v in volumes ==> !v.Holds(serial)) ==> m_BlocksFree == m_BlocksTotal)
      && ((exists i, j :: 0 <= i < j < |volumes| && volumes[i].Holds(serial) && volumes[j].Holds(serial)) ==>
            m_BlocksFree == 0)
      && (forall i, least: nat ::
            (&& OnlyOne(volumes, serial, i) && IsLeast(least, volumes[i].disks)
             && volumes[i].componentSize * 1024 + 6306 < TWO64 && least < TWO64) ==>
            var s := if volumes[0].sectorSize == 0 then 512 else volumes[0].sectorSize;
            var taken := volumes[i].componentSize * 1024 / s + 6306;
            m_BlocksFree ==
            if least / s < taken || least / s - taken < volumes[i].stripSize / s then 0 else least / s - taken)
    }

    /** `determineBlocksFree`, for the array's volumes. */
    method DetermineBlocksFree(volumes: seq<Volume>)
      modifies this`m_BlocksFree
      ensures HasDetermined(volumes) && IsFreeAsUsed(volumes)
    {
      hide IsFreeAsUsed, Mine, LeastSectors, OccupiedSectors;
      var s := DEFAULT_SECTOR_SIZE;
      if volumes != [] {
        s := volumes[0].sectorSize;
        if s == 0 {
          s := DEFAULT_SECTOR_SIZE;
        }
      }
      var totalBlocks, occupiedBlocks, stripSize, volumeCount := Survey(volumes, s);
      if volumeCount == 0 {
        m_BlocksFree := m_BlocksTotal;
      } else {
        if occupiedBlocks > 0 {
          occupiedBlocks := U64(occupiedBlocks + MPB_SECTOR_CNT);
        }
        m_BlocksFree := if occupiedBlocks > totalBlocks then 0 else totalBlocks - occupiedBlocks;
      }
      if m_BlocksFree < stripSize / s || volumeCount > 1 {
        m_BlocksFree := 0;
      }
      UsedByVolumes(this, volumes);
    }
  }

  datatype Volume = Volume(componentSize: nat, stripSize: nat, sectorSize: nat, disks: seq<Disk>) {
    /** One of the volume's disks has this serial number. */
    predicate Holds(serial: string) {
      exists k :: 0 <= k < |disks| && disks[k].serial == serial
    }

    method HasMember(serial: string) returns (found: bool)
      ensures found <==> Holds(serial)
    {
      for j := 0 to |disks|
        invariant forall k :: 0 <= k < j ==> disks[k].serial != serial
      {
        if disks[j].serial == serial {
          return true;
        }
      }
      return false;
    }

    method LeastMember(s: nat, before: nat) returns (total: nat)
      requires s > 0 && before < TWO64
      ensures total == Min(before, LeastQuotient(disks, s))
    {
      total := before;
      assert disks[..0] == [];
      for k := 0 to |disks|
        invariant total == Min(before, LeastQuotient(disks[..k], s))
      {
        total := Min(total, disks[k].totalSize / s);
        assert disks[..k + 1][..k] == disks[..k];
      }
      assert disks[..|disks|] == disks;
    }
  }

  predicate ComponentsFit(volumes: seq<Volume>) {
    forall i :: 0 <= i < |volumes| ==> volumes[i].componentSize * 1024 < TWO64
  }

  lemma ComponentsOf(volumes: seq<Volume>, v: Volume)
    ensures ComponentsFit(volumes + [v]) <==> ComponentsFit(volumes) && v.componentSize * 1024 < TWO64
  {
    var all := volumes + [v];
    assert all[|volumes|] == v && forall i :: 0 <= i < |volumes| ==> all[i] == volumes[i];
  }

  lemma OneMoreVolume(mine: seq<Volume>, v: Volume, s: nat)
    requires s > 0
    ensures LastStrip(mine + [v]) == v.stripSize
    ensures LeastSectors(mine + [v], s) == Min(LeastSectors(mine, s), LeastQuotient(v.disks, s))
    ensures LeastSectors(mine, s) < TWO64
    ensures OccupiedSectors(mine + [v], s) ==
            OccupiedSectors(mine, s) + v.componentSize * 1024 / s + IMSM_RESERVED_SECTORS
  {
    assert (mine + [v])[..|mine|] == mine;
    LeastSectorsFit(mine, s);
  }

  lemma {:induction false} LeastSectorsFit(volumes: seq<Volume>, s: nat)
    requires s > 0
    ensures LeastSectors(volumes, s) < TWO64
  {
    if volumes == [] {
    } else {
      LeastSectorsFit(volumes[..|volumes| - 1], s);
    }
  }

  lemma MineStep(volumes: seq<Volume>, i: nat, serial: string)
    requires i < |volumes|
    ensures Mine(volumes[..i + 1], serial) == Mine(volumes[..i], serial)
            + if volumes[i].Holds(serial) then [volumes[i]] else []
  {
    assert volumes[..i + 1][..i] == volumes[..i];
  }

  lemma NoVolumes(serial: string, s: nat)
    requires s > 0
    ensures Mine([], serial) == [] && LastStrip([]) == 0
    ensures LeastSectors([], s) == TWO64 - 1 && OccupiedSectors([], s) == 0
  {
  }

  class Array {
    var m_BlockDevices: seq<Disk>
    var m_Volumes: seq<Volume>
    var m_TotalSize: nat
    var m_FreeSize: nat

    constructor (disks: seq<Disk>, volumes: seq<Volume>)
      ensures m_BlockDevices == disks && m_Volumes == volumes
    {
      m_BlockDevices, m_Volumes, m_TotalSize, m_FreeSize := disks, volumes, 0, 0;
    }

    /** The total is the smallest disk's size for every disk. Without a volume all of it is free, with several none.
        With one, each disk gives up the component, 4096 reserved and 2210 metadata sectors; nothing is free when these
        are too many or not even a strip is left. */
    ghost predicate IsFreeAsUsed()
      reads this
    {
      var n := |m_BlockDevices|;
      && (|m_Volumes| > 1 ==> m_FreeSize == 0)
      && (forall least: nat :: IsLeast(least, m_BlockDevices) && least < TWO64 && least * n < TWO64 ==>
            && m_TotalSize == least * n
            && (m_Volumes == [] ==> m_FreeSize == least * n)
            && (|m_Volumes| == 1 ==>
                  var taken := m_Volumes[0].componentSize * 1024 + 6306 * m_Volumes[0].sectorSize;
                  taken < TWO64 && taken * n < TWO64 ==>
                    m_FreeSize == if least * n < taken * n || least * n - taken * n < m_Volumes[0].stripSize
                                  then 0 else least * n - taken * n))
    }

    /** `__internal_determine_total_and_free_size`. The free size never exceeds the total; when nothing
        overflows 64 bits, free and occupied bytes add up to the total, unless a strip no longer fits or there
        are several volumes: then nothing is free. */
    method DetermineTotalAndFreeSize()
      modifies this`m_TotalSize, this`m_FreeSize
      ensures m_FreeSize <= m_TotalSize && IsFreeAsUsed()
      ensures BytesFit(m_BlockDevices, m_Volumes) ==>
                && m_TotalSize == LeastSize(m_BlockDevices) * |m_BlockDevices|
                && m_FreeSize == CutOff(BytesFree(m_BlockDevices, m_Volumes), LastStrip(m_Volumes), |m_Volumes|)
      ensures BytesFit(m_BlockDevices, m_Volumes) ==>
                var occupied := Occupied(m_BlockDevices, m_Volumes);
                if occupied + LastStrip(m_Volumes) <= m_TotalSize && |m_Volumes| <= 1
                then m_FreeSize + occupied == m_TotalSize
                else m_FreeSize == 0
    {
      hide IsFreeAsUsed;
      var raidSectorSize := DEFAULT_SECTOR_SIZE;
      var n := |m_BlockDevices|;
      var totalSize := SmallestDisk();
      m_TotalSize := U64(totalSize * n);
      if m_Volumes != [] {
        raidSectorSize := m_Volumes[0].sectorSize;
      }
      var occupiedSize, stripSize, volumeCount := Survey(raidSectorSize);
      if occupiedSize > 0 {
        occupiedSize := U64(occupiedSize + U64(MPB_SECTOR_CNT * raidSectorSize));
        occupiedSize := U64(occupiedSize * n);
      }
      m_FreeSize := if occupiedSize > m_TotalSize then 0 else m_TotalSize - occupiedSize;
      if m_FreeSize < stripSize || volumeCount > 1 {
        m_FreeSize := 0;
      }
      UsedOnDisks(this);
    }

    /** One volume over all disks, with a real sector size, within the bounds. */
    predicate Uniform()
      reads this
    {
      && |m_Volumes| == 1 && m_Volumes[0].disks == m_BlockDevices && m_Volumes[0].sectorSize > 0
      && Bounded(m_BlockDevices, m_Volumes)
    }

    /** The end of `addToSession`: the array's computation and then every disk's. Where neither result was cut
        off, the array's free bytes are the same share on every disk, and a disk's free sectors are that share
        but for less than one sector; exactly, when the sector size divides the smallest disk and the component. */
    method DetermineSizes()
      modifies this`m_TotalSize, this`m_FreeSize, (set d | d in m_BlockDevices)`m_BlocksFree
      ensures Uniform() && m_FreeSize > 0 ==>
                var s, n := m_Volumes[0].sectorSize, |m_BlockDevices|;
                var perDisk := m_FreeSize / n;
                && m_FreeSize == perDisk * n
                && forall d :: d in m_BlockDevices && d.m_BlocksFree > 0 ==>
                     && d.m_BlocksFree * s < perDisk + s && perDisk < d.m_BlocksFree * s + s
                     && (LeastSize(m_BlockDevices) % s == 0 && m_Volumes[0].componentSize * 1024 % s == 0 ==>
                           perDisk == d.m_BlocksFree * s)
    {
      hide Bounded, BytesFit, SectorsFit, LeastSize, BytesFree, SectorsFree, Mine, LeastSectors, OccupiedSectors;
      hide Occupied, LastStrip, SectorSize;
      DetermineTotalAndFreeSize();
      ghost var free := m_FreeSize;
      for i := 0 to |m_BlockDevices|
        invariant m_FreeSize == free
        invariant forall k :: 0 <= k < i ==> m_BlockDevices[k].HasDetermined(m_Volumes)
      {
        m_BlockDevices[i].DetermineBlocksFree(m_Volumes);
      }
      if Uniform() {
        assert m_Volumes == [m_Volumes[0]];
        BoundsSuffice(m_BlockDevices, m_Volumes);
        SharesAgree(m_BlockDevices, m_Volumes[0], m_FreeSize);
      }
    }

    method SmallestDisk() returns (totalSize: nat)
      ensures totalSize == LeastSize(m_BlockDevices)
    {
      totalSize := TWO64 - 1;
      assert m_BlockDevices[..0] == [];
      for i := 0 to |m_BlockDevices|
        invariant totalSize == LeastSize(m_BlockDevices[..i])
      {
        totalSize := Min(totalSize, m_BlockDevices[i].totalSize);
        assert m_BlockDevices[..i + 1][..i] == m_BlockDevices[..i];
      }
      assert m_BlockDevices[..|m_BlockDevices|] == m_BlockDevices;
    }

    /** The loop over the volumes. */
    method Survey(s: nat) returns (occupiedSize: nat, stripSize: nat, volumeCount: nat)
      ensures volumeCount == |m_Volumes| && stripSize == LastStrip(m_Volumes)
      ensures OccupiedBytes(m_Volumes, s) < TWO64 ==> occupiedSize == OccupiedBytes(m_Volumes, s)
    {
      occupiedSize, stripSize, volumeCount := 0, 0, 0;
      assert m_Volumes[..0] == [];
      for i := 0 to |m_Volumes|
        invariant volumeCount == i && stripSize == LastStrip(m_Volumes[..i])
        invariant OccupiedBytes(m_Volumes[..i], s) < TWO64 ==> occupiedSize == OccupiedBytes(m_Volumes[..i], s)
      {
        occupiedSize := U64(occupiedSize + U64(m_Volumes[i].componentSize * 1024));
        occupiedSize := U64(occupiedSize + U64(IMSM_RESERVED_SECTORS * s));
        stripSize := m_Volumes[i].stripSize;
        volumeCount := volumeCount + 1;
        assert m_Volumes[..i + 1][..i] == m_Volumes[..i];
      }
      assert m_Volumes[..|m_Volumes|] == m_Volumes;
    }
  }

  // ---- the volumes of a disk ----

  /** The size of the smallest disk. */
  ghost predicate IsLeast(least: nat, disks: seq<Disk>) {
    && (exists d :: d in disks && d.totalSize == least)
    && (forall d :: d in disks ==> least <= d.totalSize)
  }

  /** Only the volume at `i` holds the serial number. */
  predicate OnlyOne(volumes: seq<Volume>, serial: string, i: int) {
    && 0 <= i < |volumes| && volumes[i].Holds(serial)
    && forall j :: 0 <= j < |volumes| && j != i ==> !volumes[j].Holds(serial)
  }

  lemma {:induction false} InNone(volumes: seq<Volume>, serial: string)
    requires forall v :: v in volumes ==> !v.Holds(serial)
    ensures Mine(volumes, serial) == []
  {
    hide Volume.Holds;
    if volumes == [] {
    } else {
      InNone(volumes[..|volumes| - 1], serial);
    }
  }

  lemma {:induction false} InOne(volumes: seq<Volume>, serial: string, i: nat)
    requires OnlyOne(volumes, serial, i)
    ensures Mine(volumes, serial) == [volumes[i]]
  {
    hide Volume.Holds;
    var n := |volumes| - 1;
    if i == n {
      forall v | v in volumes[..n] ensures !v.Holds(serial) {
        var j :| 0 <= j < n && volumes[j] == v;
      }
      InNone(volumes[..n], serial);
    } else {
      InOne(volumes[..n], serial, i);
    }
  }

  lemma {:induction false} InSome(volumes: seq<Volume>, serial: string, i: nat)
    requires i < |volumes| && volumes[i].Holds(serial)
    ensures |Mine(volumes, serial)| >= 1
  {
    hide Volume.Holds;
    var n := |volumes| - 1;
    if i == n {
    } else {
      InSome(volumes[..n], serial, i);
    }
  }

  lemma {:induction false} InSeveral(volumes: seq<Volume>, serial: string, i: nat, j: nat)
    requires i < j < |volumes| && volumes[i].Holds(serial) && volumes[j].Holds(serial)
    ensures |Mine(volumes, serial)| > 1
  {
    hide Volume.Holds;
    var n := |volumes| - 1;
    if j == n {
      InSome(volumes[..n], serial, i);
    } else {
      InSeveral(volumes[..n], serial, i, j);
    }
  }

  /** What the exact quantities come to, volume by volume. */
  lemma UsedByVolumes(d: Disk, volumes: seq<Volume>)
    requires d.HasDetermined(volumes) && (|Mine(volumes, d.serial)| > 1 ==> d.m_BlocksFree == 0)
    ensures d.IsFreeAsUsed(volumes)
  {
    hide Volume.Holds, Mine, FreeSectors, SectorsFit, IsLeast, SectorSize;
    if forall v :: v in volumes ==> !v.Holds(d.serial) {
      InNone(volumes, d.serial);
      FreeInNone(SectorSize(volumes), d.m_BlocksTotal);
    }
    forall i, j | 0 <= i < j < |volumes| && volumes[i].Holds(d.serial) && volumes[j].Holds(d.serial)
      ensures d.m_BlocksFree == 0
    {
      InSeveral(volumes, d.serial, i, j);
    }
    forall i, least: nat | OnlyOne(volumes, d.serial, i) && IsLeast(least, volumes[i].disks)
      && volumes[i].componentSize * 1024 + 6306 < TWO64 && least < TWO64
      ensures var s := SectorSize(volumes);
              var taken := volumes[i].componentSize * 1024 / s + 6306;
              d.m_BlocksFree ==
              if least / s < taken || least / s - taken < volumes[i].stripSize / s then 0 else least / s - taken
    {
      InOne(volumes, d.serial, i);
      FreeInOne(volumes[i], SectorSize(volumes), d.m_BlocksTotal, least);
    }
    SectorSizeIs(volumes);
  }

  lemma SectorSizeIs(volumes: seq<Volume>)
    ensures volumes != [] ==> SectorSize(volumes) == if volumes[0].sectorSize == 0 then 512 else volumes[0].sectorSize
  {
  }

  lemma FreeInNone(s: nat, blocksTotal: nat)
    requires s > 0
    ensures SectorsFit([], s) && FreeSectors([], s, blocksTotal) == blocksTotal
  {
  }

  lemma FreeInOne(v: Volume, s: nat, blocksTotal: nat, least: nat)
    requires s > 0 && IsLeast(least, v.disks)
    requires v.componentSize * 1024 + 6306 < TWO64 && least < TWO64
    ensures var taken := v.componentSize * 1024 / s + 6306;
            && SectorsFit([v], s)
            && FreeSectors([v], s, blocksTotal) ==
               if least / s < taken || least / s - taken < v.stripSize / s then 0 else least / s - taken
  {
    hide LeastQuotient, IsLeast, OccupiedSectors, LeastSectors;
    QuotientMonotone(v.componentSize * 1024, v.componentSize * 1024, s);
    OneOccupies(v, s, least);
  }

  lemma OneOccupies(v: Volume, s: nat, least: nat)
    requires s > 0 && IsLeast(least, v.disks) && least < TWO64
    ensures OccupiedSectors([v], s) == v.componentSize * 1024 / s + 4096
    ensures LeastSectors([v], s) == least / s
  {
    hide LeastQuotient, IsLeast;
    assert [v][..0] == [];
    QuotientMonotone(least, TWO64 - 1, s);
    LeastQuotientIs(v.disks, s, least);
  }

  lemma LeastQuotientIs(disks: seq<Disk>, s: nat, least: nat)
    requires s > 0 && IsLeast(least, disks) && least < TWO64
    ensures LeastQuotient(disks, s) == least / s
  {
    hide LeastQuotient;
    QuotientMonotone(least, TWO64 - 1, s);
    LeastQuotientBelow(disks, s);
    var d0 :| d0 in disks && d0.totalSize == least;
    assert LeastQuotient(disks, s) <= least / s <= least;
    if LeastQuotient(disks, s) != TWO64 - 1 {
      var d1 :| d1 in disks && LeastQuotient(disks, s) == d1.totalSize / s;
      QuotientMonotone(least, d1.totalSize, s);
    }
  }

  lemma {:induction false} LeastQuotientBelow(disks: seq<Disk>, s: nat)
    requires s > 0
    ensures forall d :: d in disks ==> LeastQuotient(disks, s) <= d.totalSize / s
    ensures LeastQuotient(disks, s) == TWO64 - 1 || exists d :: d in disks && LeastQuotient(disks, s) == d.totalSize / s
  {
    if disks == [] {
    } else {
      var front, last := disks[..|disks| - 1], disks[|disks| - 1];
      LeastQuotientBelow(front, s);
      assert disks == front + [last];
    }
  }

  // ---- the exact quantities ----

  function LeastSize(disks: seq<Disk>): nat {
    if disks == [] then TWO64 - 1 else Min(LeastSize(disks[..|disks| - 1]), disks[|disks| - 1].totalSize)
  }

  function LeastQuotient(disks: seq<Disk>, s: nat): nat
    requires s > 0
  {
    if disks == [] then TWO64 - 1 else Min(LeastQuotient(disks[..|disks| - 1], s), disks[|disks| - 1].totalSize / s)
  }

  /** The sector size both computations work with, as long as no volume reports zero. */
  function SectorSize(volumes: seq<Volume>): (s: nat)
    ensures s > 0
  {
    if volumes == [] || volumes[0].sectorSize == 0 then DEFAULT_SECTOR_SIZE else volumes[0].sectorSize
  }

  function RawSectorSize(volumes: seq<Volume>): nat {
    if volumes == [] then DEFAULT_SECTOR_SIZE else volumes[0].sectorSize
  }

  function LastStrip(volumes: seq<Volume>): nat {
    if volumes == [] then 0 else volumes[|volumes| - 1].stripSize
  }

  /** The volumes that the disk with this serial number is part of. */
  function Mine(volumes: seq<Volume>, serial: string): (r: seq<Volume>)
    ensures |r| <= |volumes|
  {
    if volumes == [] then [] else
      var v := volumes[|volumes| - 1];
      Mine(volumes[..|volumes| - 1], serial)
      + if v.Holds(serial) then [v] else []
  }

  function OccupiedBytes(volumes: seq<Volume>, s: nat): nat {
    if volumes == [] then 0 else
      var v := volumes[|volumes| - 1];
      OccupiedBytes(volumes[..|volumes| - 1], s) + v.componentSize * 1024 + IMSM_RESERVED_SECTORS * s
  }

  function OccupiedSectors(volumes: seq<Volume>, s: nat): nat
    requires s > 0
  {
    if volumes == [] then 0 else
      var v := volumes[|volumes| - 1];
      OccupiedSectors(volumes[..|volumes| - 1], s) + v.componentSize * 1024 / s + IMSM_RESERVED_SECTORS
  }

  function LeastSectors(volumes: seq<Volume>, s: nat): nat
    requires s > 0
  {
    if volumes == [] then TWO64 - 1 else
      Min(LeastSectors(volumes[..|volumes| - 1], s), LeastQuotient(volumes[|volumes| - 1].disks, s))
  }

  function WithMetadata(occupied: nat, metadata: nat): nat {
    if occupied > 0 then occupied + metadata else 0
  }

  function Minus(a: nat, b: nat): nat {
    if b > a then 0 else a - b
  }

  /** The bytes of all disks together that volumes and metadata take. */
  function Occupied(disks: seq<Disk>, volumes: seq<Volume>): nat {
    var s := RawSectorSize(volumes);
    WithMetadata(OccupiedBytes(volumes, s), MPB_SECTOR_CNT * s) * |disks|
  }

  lemma {:induction false} LeastSizeIs(disks: seq<Disk>, least: nat)
    requires IsLeast(least, disks) && least < TWO64
    ensures LeastSize(disks) == least
  {
    LeastSizeBelow(disks);
  }

  lemma {:induction false} LeastSizeBelow(disks: seq<Disk>)
    ensures forall d :: d in disks ==> LeastSize(disks) <= d.totalSize
    ensures LeastSize(disks) == TWO64 - 1 || exists d :: d in disks && LeastSize(disks) == d.totalSize
  {
    if disks == [] {
    } else {
      var front, last := disks[..|disks| - 1], disks[|disks| - 1];
      LeastSizeBelow(front);
      assert disks == front + [last];
    }
  }

  /** What the exact quantities come to for none, one and several volumes. */
  lemma UsedOnDisks(a: Array)
    requires |a.m_Volumes| > 1 ==> a.m_FreeSize == 0
    requires BytesFit(a.m_BlockDevices, a.m_Volumes) ==>
               && a.m_TotalSize == LeastSize(a.m_BlockDevices) * |a.m_BlockDevices|
               && a.m_FreeSize ==
                  CutOff(BytesFree(a.m_BlockDevices, a.m_Volumes), LastStrip(a.m_Volumes), |a.m_Volumes|)
    requires LeastSize(a.m_BlockDevices) * |a.m_BlockDevices| < TWO64 ==>
               a.m_TotalSize == LeastSize(a.m_BlockDevices) * |a.m_BlockDevices|
    ensures a.IsFreeAsUsed()
  {
    hide LeastSize, IsLeast, Occupied;
    var disks, volumes, n := a.m_BlockDevices, a.m_Volumes, |a.m_BlockDevices|;
    forall least: nat | IsLeast(least, disks) && least < TWO64 && least * n < TWO64
      ensures a.m_TotalSize == least * n
      ensures volumes == [] ==> a.m_FreeSize == least * n
      ensures |volumes| == 1 ==>
                var taken := volumes[0].componentSize * 1024 + 6306 * volumes[0].sectorSize;
                taken < TWO64 && taken * n < TWO64 ==>
                  a.m_FreeSize == if least * n < taken * n || least * n - taken * n < volumes[0].stripSize
                                  then 0 else least * n - taken * n
    {
      LeastSizeIs(disks, least);
      if volumes == [] {
        NoneOccupies(disks);
      } else if |volumes| == 1 {
        assert volumes == [volumes[0]];
        OneOccupiesBytes(disks, volumes[0]);
      }
    }
  }

  lemma NoneOccupies(disks: seq<Disk>)
    ensures Occupied(disks, []) == 0 && OccupiedBytes([], DEFAULT_SECTOR_SIZE) == 0
  {
  }

  lemma OneOccupiesBytes(disks: seq<Disk>, v: Volume)
    ensures Occupied(disks, [v]) == (v.componentSize * 1024 + 6306 * v.sectorSize) * |disks|
    ensures OccupiedBytes([v], v.sectorSize) + MPB_SECTOR_CNT * v.sectorSize
            == v.componentSize * 1024 + 6306 * v.sectorSize
  {
    assert [v][..0] == [];
    assert OccupiedBytes([v], v.sectorSize) == v.componentSize * 1024 + IMSM_RESERVED_SECTORS * v.sectorSize;
  }

  /** The array's free bytes before the strip-size cut-off. */
  function BytesFree(disks: seq<Disk>, volumes: seq<Volume>): nat {
    Minus(LeastSize(disks) * |disks|, Occupied(disks, volumes))
  }

  /** A disk's free sectors before the strip-size cut-off. */
  function SectorsFree(total: nat, occupied: nat): nat {
    Minus(total, WithMetadata(occupied, MPB_SECTOR_CNT))
  }

  /** A disk's free sectors, given the volumes it is part of. */
  function FreeSectors(mine: seq<Volume>, s: nat, blocksTotal: nat): nat
    requires s > 0
  {
    var free := if mine == [] then blocksTotal else SectorsFree(LeastSectors(mine, s), OccupiedSectors(mine, s));
    CutOff(free, LastStrip(mine) / s, |mine|)
  }

  function CutOff(free: nat, strip: nat, volumes: nat): nat {
    if free < strip || volumes > 1 then 0 else free
  }

  /** Nothing overflows in the array's computation. */
  predicate BytesFit(disks: seq<Disk>, volumes: seq<Volume>) {
    var s := RawSectorSize(volumes);
    && LeastSize(disks) * |disks| < TWO64
    && OccupiedBytes(volumes, s) + MPB_SECTOR_CNT * s < TWO64
    && Occupied(disks, volumes) < TWO64
  }

  /** Nothing overflows in a disk's computation. */
  predicate SectorsFit(mine: seq<Volume>, s: nat)
    requires s > 0
  {
    ComponentsFit(mine) && OccupiedSectors(mine, s) + MPB_SECTOR_CNT < TWO64
  }

  /** Bounds any real array meets: at most 256 disks below 64 PiB, sectors up to 64 KiB, and volumes that
      together fit on such a disk and can be counted. */
  predicate Bounded(disks: seq<Disk>, volumes: seq<Volume>) {
    var s := RawSectorSize(volumes);
    && 0 < |disks| <= 256 && (forall d :: d in disks ==> d.totalSize < MAX_BYTES)
    && s <= 0x1_0000 && |volumes| < 0x8000_0000
    && OccupiedBytes(volumes, s) + MPB_SECTOR_CNT * s < MAX_BYTES
  }

  /** Within these bounds neither computation overflows, for any disk. */
  lemma BoundsSuffice(disks: seq<Disk>, volumes: seq<Volume>)
    requires Bounded(disks, volumes)
    ensures BytesFit(disks, volumes)
    ensures forall serial: string :: SectorsFit(Mine(volumes, serial), SectorSize(volumes))
  {
    LeastIsSome(disks);
    var s := RawSectorSize(volumes);
    Product(LeastSize(disks), |disks|);
    Product(WithMetadata(OccupiedBytes(volumes, s), MPB_SECTOR_CNT * s), |disks|);
    forall serial: string ensures SectorsFit(Mine(volumes, serial), SectorSize(volumes)) {
      SectorsBounded(volumes, serial, SectorSize(volumes), s);
    }
  }

  /** The sectors occupied on one disk are no more than the bytes occupied by all volumes, and the reserved ones. */
  lemma {:induction false} SectorsBounded(volumes: seq<Volume>, serial: string, s: nat, raw: nat)
    requires s > 0
    ensures OccupiedSectors(Mine(volumes, serial), s) <= OccupiedBytes(volumes, raw) + IMSM_RESERVED_SECTORS * |volumes|
    ensures OccupiedBytes(volumes, raw) < TWO64 ==> ComponentsFit(Mine(volumes, serial))
  {
    hide OccupiedSectors, LeastSectors, LeastQuotient;
    NoVolumes(serial, s);
    if volumes == [] {
    } else {
      var front, v := volumes[..|volumes| - 1], volumes[|volumes| - 1];
      SectorsBounded(front, serial, s, raw);
      OneMoreVolume(Mine(front, serial), v, s);
      ComponentsOf(Mine(front, serial), v);
      QuotientMonotone(v.componentSize * 1024, v.componentSize * 1024, s);
      assert Mine(front, serial) + [] == Mine(front, serial);
      assert OccupiedBytes(volumes, raw) >= OccupiedBytes(front, raw) + v.componentSize * 1024;
    }
  }

  lemma Product(a: nat, n: nat)
    requires a < 0x100_0000_0000_0000 && n <= 256
    ensures a * n < TWO64
  {
    assert a * n <= a * 256;
  }

  lemma {:induction false} LeastIsSome(disks: seq<Disk>)
    requires disks != [] && forall d :: d in disks ==> d.totalSize < TWO64 - 1
    ensures exists d :: d in disks && LeastSize(disks) == d.totalSize
  {
    var front, last := disks[..|disks| - 1], disks[|disks| - 1];
    assert disks == front + [last];
    if front != [] {
      LeastIsSome(front);
    } else {
      assert LeastSize(disks) == last.totalSize;
    }
  }

  // ---- the two computations agree ----

  lemma {:induction false} QuotientOfLeast(disks: seq<Disk>, s: nat)
    requires s > 0 && forall d :: d in disks ==> d.totalSize < TWO64
    ensures disks != [] ==> LeastQuotient(disks, s) == LeastSize(disks) / s
    decreases |disks|
  {
    if disks == [] {
    } else {
      var front, last := disks[..|disks| - 1], disks[|disks| - 1];
      QuotientOfLeast(front, s);
      if front == [] {
        QuotientMonotone(last.totalSize, TWO64 - 1, s);
      } else if LeastSize(front) < last.totalSize {
        QuotientMonotone(LeastSize(front), last.totalSize, s);
      } else {
        QuotientMonotone(last.totalSize, LeastSize(front), s);
      }
    }
  }

  lemma ProductMonotone(x: int, y: int, s: nat)
    requires x <= y
    ensures x * s <= y * s
  {
  }

  lemma SuccessorTimes(x: int, s: nat)
    ensures (x + 1) * s == x * s + s
  {
  }

  lemma QuotientBounds(a: nat, s: nat)
    requires s > 0
    ensures a / s * s <= a < a / s * s + s
    ensures a % s == 0 ==> a / s * s == a
  {
    DivMod(a, s);
  }

  lemma QuotientMonotone(a: nat, b: nat, s: nat)
    requires s > 0 && a <= b
    ensures a / s <= b / s && a / s <= a
  {
    QuotientBounds(a, s);
    QuotientBounds(b, s);
    ProductMonotone(1, s, a / s);
    SuccessorTimes(b / s, s);
    if a / s > b / s {
      ProductMonotone(b / s + 1, a / s, s);
    }
  }

  /** The heart of the agreement: rounding total and component to sectors separately moves the difference
      by less than one sector. */
  lemma RoundingError(t: nat, c: nat, m: nat, s: nat)
    requires s > 0
    ensures var bytes, sectors := Minus(t, c + m * s), Minus(t / s, c / s + m);
            && sectors * s < bytes + s && bytes < sectors * s + s
            && (t % s == 0 && c % s == 0 ==> bytes == sectors * s)
  {
    QuotientBounds(t, s);
    QuotientBounds(c, s);
    var d: int := t / s - c / s - m;
    Distribute(t / s, c / s, m, s);
    if d >= 1 {
      ProductMonotone(1, d, s);
    } else if d <= -1 {
      ProductMonotone(d, -1, s);
    }
  }

  lemma Distribute(q: int, r: int, m: int, s: int)
    ensures (q - r - m) * s == q * s - r * s - m * s
  {
  }

  /** For one volume over all the array's disks, the array's free bytes are the same on every disk, and on
      each disk they differ from its free sectors by less than one sector; by nothing when the sector size
      divides the smallest disk and the component. */
  lemma FreeSpacesAgree(disks: seq<Disk>, volume: Volume)
    requires disks != [] && volume.disks == disks && volume.sectorSize > 0
    requires forall d :: d in disks ==> d.totalSize < TWO64
    ensures var s, component := volume.sectorSize, volume.componentSize * 1024;
            var perDisk := Minus(LeastSize(disks), component + (IMSM_RESERVED_SECTORS + MPB_SECTOR_CNT) * s);
            && BytesFree(disks, [volume]) == perDisk * |disks|
            && forall d :: d in disks ==>
                 var mine := Mine([volume], d.serial);
                 var free := SectorsFree(LeastSectors(mine, s), OccupiedSectors(mine, s));
                 && mine == [volume] && SectorSize([volume]) == s
                 && free * s < perDisk + s && perDisk < free * s + s
                 && (LeastSize(disks) % s == 0 && component % s == 0 ==> perDisk == free * s)
  {
    hide LeastSize, LeastQuotient, Minus;
    var s, component := volume.sectorSize, volume.componentSize * 1024;
    var m := IMSM_RESERVED_SECTORS + MPB_SECTOR_CNT;
    ArraySide(disks, volume);
    DiskSide(disks, volume);
    RoundingError(LeastSize(disks), component, m, s);
    forall d | d in disks ensures Mine([volume], d.serial) == [volume] {
      var k :| 0 <= k < |disks| && disks[k] == d;
      assert volume.disks[k].serial == d.serial;
      assert [volume][..0] == [];
    }
  }

  lemma ArraySide(disks: seq<Disk>, volume: Volume)
    requires volume.sectorSize > 0
    ensures var s, component := volume.sectorSize, volume.componentSize * 1024;
            BytesFree(disks, [volume]) ==
            Minus(LeastSize(disks), component + (IMSM_RESERVED_SECTORS + MPB_SECTOR_CNT) * s) * |disks|
  {
    hide LeastSize;
    var s, component := volume.sectorSize, volume.componentSize * 1024;
    assert [volume][..0] == [];
    assert OccupiedBytes([volume], s) == component + IMSM_RESERVED_SECTORS * s;
    MinusScales(LeastSize(disks), component + (IMSM_RESERVED_SECTORS + MPB_SECTOR_CNT) * s, |disks|);
  }

  lemma DiskSide(disks: seq<Disk>, volume: Volume)
    requires disks != [] && volume.disks == disks && volume.sectorSize > 0
    requires forall d :: d in disks ==> d.totalSize < TWO64
    ensures var s := volume.sectorSize;
            SectorsFree(LeastSectors([volume], s), OccupiedSectors([volume], s)) ==
            Minus(LeastSize(disks) / s, volume.componentSize * 1024 / s + (IMSM_RESERVED_SECTORS + MPB_SECTOR_CNT))
  {
    hide LeastSize, LeastQuotient;
    var s := volume.sectorSize;
    assert [volume][..0] == [];
    QuotientOfLeast(disks, s);
    LeastBelow(disks);
    QuotientMonotone(LeastSize(disks), TWO64 - 1, s);
  }

  lemma {:induction false} LeastBelow(disks: seq<Disk>)
    ensures LeastSize(disks) < TWO64
  {
    if disks == [] {
    } else {
      LeastBelow(disks[..|disks| - 1]);
    }
  }

  lemma MinusScales(a: nat, b: nat, n: nat)
    ensures Minus(a * n, b * n) == Minus(a, b) * n
  {
    if b > a {
      assert b * n >= a * n;
    } else {
      assert (a - b) * n == a * n - b * n;
    }
  }

  /** The agreement on the two results, where neither was cut off. */
  lemma SharesAgree(disks: seq<Disk>, volume: Volume, freeSize: nat)
    requires Bounded(disks, [volume]) && volume.disks == disks && volume.sectorSize > 0
    requires freeSize == CutOff(BytesFree(disks, [volume]), LastStrip([volume]), 1)
    requires forall d :: d in disks ==> d.HasDetermined([volume])
    ensures freeSize > 0 ==>
              var s, perDisk := volume.sectorSize, freeSize / |disks|;
              && freeSize == perDisk * |disks|
              && forall d :: d in disks && d.m_BlocksFree > 0 ==>
                   && d.m_BlocksFree * s < perDisk + s && perDisk < d.m_BlocksFree * s + s
                   && (LeastSize(disks) % s == 0 && volume.componentSize * 1024 % s == 0 ==>
                         perDisk == d.m_BlocksFree * s)
  {
    hide LeastSize, BytesFree, SectorsFree, Mine, LeastSectors, OccupiedSectors, SectorsFit, BytesFit, Occupied, Minus;
    hide OccupiedBytes;
    BoundsSuffice(disks, [volume]);
    FreeSpacesAgree(disks, volume);
    var s := volume.sectorSize;
    var perDisk := Minus(LeastSize(disks), volume.componentSize * 1024 + (IMSM_RESERVED_SECTORS + MPB_SECTOR_CNT) * s);
    ProductDivides(perDisk, |disks|);
    forall d | d in disks && d.m_BlocksFree > 0
      ensures d.m_BlocksFree == SectorsFree(LeastSectors([volume], s), OccupiedSectors([volume], s))
    {
      assert Mine([volume], d.serial) == [volume] && SectorSize([volume]) == s;
      assert d.HasDetermined([volume]);
    }
  }

  lemma ProductDivides(a: nat, n: nat)
    requires n > 0
    ensures a * n / n == a
  {
    var q := a * n / n;
    QuotientBounds(a * n, n);
    if q < a {
      ProductMonotone(q + 1, a, n);
      SuccessorTimes(q, n);
    } else if q > a {
      ProductMonotone(a + 1, q, n);
      SuccessorTimes(a, n);
    }
  }

  /** For a volume that reports sector size 0, the array counts no metadata and the disk counts it in sectors of
      512 bytes: they still agree within a sector exactly when less than a sector is free anyway. */
  lemma ZeroSectorSizeAgreesIff(disks: seq<Disk>, volume: Volume)
    requires disks != [] && volume.disks == disks && volume.sectorSize == 0
    requires forall d :: d in disks ==> d.totalSize < TWO64
    ensures var s := SectorSize([volume]);
            var perDisk := Minus(LeastSize(disks), volume.componentSize * 1024);
            var free := SectorsFree(LeastSectors([volume], s), OccupiedSectors([volume], s));
            && BytesFree(disks, [volume]) == perDisk * |disks|
            && free * s <= perDisk
            && (perDisk < free * s + s <==> perDisk < s)
  {
    hide LeastSize, LeastQuotient;
    var s, component := DEFAULT_SECTOR_SIZE, volume.componentSize * 1024;
    assert [volume][..0] == [];
    assert OccupiedBytes([volume], 0) == component;
    MinusScales(LeastSize(disks), component, |disks|);
    QuotientOfLeast(disks, s);
    LeastBelow(disks);
    QuotientMonotone(LeastSize(disks), TWO64 - 1, s);
    assert component / s == volume.componentSize * 2;
  }
}
