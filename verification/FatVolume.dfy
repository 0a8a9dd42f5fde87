/** A FAT16 or FAT32 volume as its sectors define it: geometry, cluster chains, the
    root directory and file contents. Sector numbers wrap at 32 bits. */
module FatVolume {
  import opened Bytes
  import opened Division
  import opened LittleEndian

  type Disk = nat -> Sector

  const MAX_SECTORS_PER_CLUSTER: nat := 128
  const MAX_FAT32_ROOT_SECTORS: nat := 4096
  const NO_SECTOR: nat := 0xFFFFFFFF

  function Wrap(x: nat): nat {
    x % 0x1_0000_0000
  }

  function Rd16(s: Sector, at: nat): (v: nat)
    requires at + 2 <= 512
    ensures v < 0x1_0000 && v % 0x100 == s[at] && v / 0x100 == s[at + 1]
  {
    (s[at] as int) + 0x100 * (s[at + 1] as int)
  }

  function Rd32(s: Sector, at: nat): (v: nat)
    requires at + 4 <= 512
    ensures v < 0x1_0000_0000
    ensures ByteOf(v, 0) == s[at] && ByteOf(v, 1) == s[at + 1] && ByteOf(v, 2) == s[at + 2] && ByteOf(v, 3) == s[at + 3]
  {
    BytesOfLe(s[at], s[at + 1], s[at + 2], s[at + 3]);
    Le(s[at], s[at + 1], s[at + 2], s[at + 3])
  }

  datatype Geometry = Geometry(
    spc: nat,
    fatStart: nat,
    rootStart: nat,
    rootSectors: nat,
    dataStart: nat,
    rootCluster: nat,
    fat32: bool)
  {
    predicate Valid() {
      0 < spc <= MAX_SECTORS_PER_CLUSTER && fatStart < 0x1_0000_0000
    }

    /** The first value that ends a chain. */
    function EndOfChain(): nat {
      if fat32 then 0x0FFFFFF8 else 0xFFF8
    }

    predicate Live(cluster: nat) {
      2 <= cluster < EndOfChain()
    }

    /** How many entries a FAT sector holds, of 4 or of 2 bytes. */
    function PerSector(): nat {
      if fat32 then 128 else 256
    }

    /** The place of a cluster's entry in the FAT. Byte offsets wrap. */
    function EntryIndex(cluster: nat): nat {
      cluster % if fat32 then 0x4000_0000 else 0x8000_0000
    }

    function EntrySector(cluster: nat): nat {
      Wrap(fatStart + EntryIndex(cluster) / PerSector())
    }

    /** The entry for a cluster, in the FAT sector that holds it. The upper four bits of a
        FAT32 entry are reserved. */
    function EntryIn(sector: Sector, cluster: nat): nat {
      var i := EntryIndex(cluster) % PerSector();
      if fat32 then Le(sector[4 * i], sector[4 * i + 1], sector[4 * i + 2], sector[4 * i + 3] % 16)
      else Le(sector[2 * i], sector[2 * i + 1], 0, 0)
    }

    /** The cluster after `cluster`, as the FAT says. */
    function Next(disk: Disk, cluster: nat): nat {
      EntryIn(disk(EntrySector(cluster)), cluster)
    }

    function Lba(cluster: nat, s: nat): nat
      requires cluster >= 2
    {
      Wrap(dataStart + (cluster - 2) * spc + s)
    }

    /** Sector `s` of the fixed root directory. */
    function RegionLba(s: nat): nat {
      Wrap(rootStart + s)
    }

    /** The FAT sectors of live clusters stay below the number that marks the cache as
        empty. */
    predicate FatBelowMarker() {
      fatStart + (if fat32 then 0x20_0000 else 0x100) <= NO_SECTOR
    }

    lemma SectorOfLive(cluster: nat)
      requires Live(cluster)
      ensures EntryIndex(cluster) == cluster && EntryIndex(cluster) / PerSector() < if fat32 then 0x20_0000 else 0x100
    {}

    /** That is, the sector of no live cluster has that number. */
    lemma BelowMarkerExactlyWhen()
      requires Valid()
      ensures FatBelowMarker() <==> forall cluster :: Live(cluster) ==> EntrySector(cluster) != NO_SECTOR
    {
      forall cluster | Live(cluster) && FatBelowMarker() ensures EntrySector(cluster) != NO_SECTOR {
        SectorOfLive(cluster);
      }
      if !FatBelowMarker() {
        var k := NO_SECTOR - fatStart;
        var cluster := (if fat32 then 128 else 256) * k + 2;
        assert Live(cluster);
        SectorOfLive(cluster);
        assert EntrySector(cluster) == NO_SECTOR;
      }
    }
  }

  /** The byte offsets of FAT entries, as sectors and entries. */
  lemma OffsetOfFour(cluster: nat)
    ensures var off, i := Wrap(cluster * 4), cluster % 0x4000_0000; off / 512 == i / 128 && off % 512 == 4 * (i % 128)
  {
    var i := cluster % 0x4000_0000;
    QuotientIs(cluster * 4, cluster / 0x4000_0000, 4 * i, 0x1_0000_0000);
    QuotientIs(4 * i, i / 128, 4 * (i % 128), 512);
  }

  lemma OffsetOfTwo(cluster: nat)
    ensures var off, i := Wrap(cluster * 2), cluster % 0x8000_0000; off / 512 == i / 256 && off % 512 == 2 * (i % 256)
  {
    var i := cluster % 0x8000_0000;
    QuotientIs(cluster * 2, cluster / 0x8000_0000, 2 * i, 0x1_0000_0000);
    QuotientIs(2 * i, i / 256, 2 * (i % 256), 512);
  }

  /** The first of the four partitions with a FAT type, 0 for none. */
  function Partition(mbr: Sector, i: nat): nat
    requires i <= 4
    decreases 4 - i
  {
    if i == 4 then 0
    else if mbr[0x1BE + 16 * i + 4] in {0x04, 0x06, 0x0B, 0x0C, 0x0E} then Rd32(mbr, 0x1BE + 16 * i + 8)
    else Partition(mbr, i + 1)
  }

  predicate IsPowerOfTwo(v: byte) {
    v in {1, 2, 4, 8, 16, 32, 64, 128}
  }

  /** The sectors of all FATs. A 16-bit size of 0 means FAT32. */
  function FatSectors(bpb: Sector): nat {
    var size := if Rd16(bpb, 0x16) == 0 then Rd32(bpb, 0x24) else Rd16(bpb, 0x16);
    Scaled(0, bpb[0x10], size);
    bpb[0x10] * size
  }

  /** The geometry that a boot sector describes, if it is supported. */
  function Parse(bpb: Sector, part: nat): (g: Option<Geometry>)
    ensures g.Some? ==> g.value.Valid() && (g.value.fat32 <==> Rd16(bpb, 0x16) == 0)
  {
    var spc, reserved, fats := bpb[0x0D], Rd16(bpb, 0x0E), bpb[0x10];
    var rootEntries, spf16 := Rd16(bpb, 0x11), Rd16(bpb, 0x16);
    var fatStart := Wrap(part + reserved);
    var afterFats := Wrap(fatStart + FatSectors(bpb));
    if Rd16(bpb, 0x0B) != 512 || !IsPowerOfTwo(spc) || reserved == 0 || fats == 0 || fats > 4 then None
    else if spf16 == 0 then
      var spf, root := Rd32(bpb, 0x24), Rd32(bpb, 0x2C);
      if spf == 0 || root < 2 then None else Some(Geometry(spc, fatStart, 0, 0, afterFats, root, true))
    else if rootEntries == 0 then None
    else
      var sectors := (rootEntries * 32 + 511) / 512;
      Some(Geometry(spc, fatStart, afterFats, sectors, Wrap(afterFats + sectors), 0, false))
  }

  lemma WrapTwice(a: nat, b: nat)
    ensures Wrap(Wrap(a) + b) == Wrap(a + b)
  {
    var q, r := a / 0x1_0000_0000, Wrap(a);
    assert a + b == q * 0x1_0000_0000 + (r + b);
    DivideSum(q, r + b, 0x1_0000_0000);
  }

  lemma SectorOfCluster(g: Geometry, cluster: nat, s: nat)
    requires cluster >= 2
    ensures g.Lba(cluster, s) == Wrap(g.Lba(cluster, 0) + s)
  {
    WrapTwice(g.dataStart + (cluster - 2) * g.spc, s);
  }

  /** The data region is clusters without a gap: the first one, number 2, is at its start,
      and the sectors of each follow those of the one before. */
  lemma ClustersTile(g: Geometry, cluster: nat, s: nat)
    requires cluster >= 2
    ensures g.Lba(2, 0) == Wrap(g.dataStart)
    ensures g.Lba(cluster, s + 1) == Wrap(g.Lba(cluster, s) + 1)
    ensures g.Lba(cluster + 1, 0) == g.Lba(cluster, g.spc) == Wrap(g.Lba(cluster, 0) + g.spc)
  {
    hide Wrap;
    var first := g.dataStart + (cluster - 2) * g.spc;
    WrapTwice(first + s, 1);
    WrapTwice(first, g.spc);
    assert (cluster - 1) * g.spc == (cluster - 2) * g.spc + g.spc;
  }

  lemma JustEnough(entries: nat)
    ensures var sectors := (entries * 32 + 511) / 512; 16 * (sectors - 1) < entries <= 16 * sectors
  {}

  /** The FATs follow the reserved sectors, then the fixed root directory of a FAT16
      volume, in just enough sectors for its entries, then the data. */
  lemma RegionsFollow(bpb: Sector, part: nat)
    requires Parse(bpb, part).Some?
    ensures var g, reserved, fats := Parse(bpb, part).value, Rd16(bpb, 0x0E), bpb[0x10];
      if Rd16(bpb, 0x16) == 0 then
        && g.fat32 && g.rootSectors == 0
        && g.dataStart == Wrap(part + reserved + fats * Rd32(bpb, 0x24))
      else
        && !g.fat32
        && g.rootStart == Wrap(part + reserved + fats * Rd16(bpb, 0x16))
        && g.dataStart == Wrap(part + reserved + fats * Rd16(bpb, 0x16) + g.rootSectors)
        && 16 * (g.rootSectors - 1) < Rd16(bpb, 0x11) <= 16 * g.rootSectors
  {
    hide Rd16, Rd32, Wrap;
    var g, start := Parse(bpb, part).value, part + Rd16(bpb, 0x0E);
    WrapTwice(start, FatSectors(bpb));
    WrapTwice(start + FatSectors(bpb), g.rootSectors);
    JustEnough(Rd16(bpb, 0x11));
  }

  // Directory entries.

  type Name = s: seq<byte> | |s| == 11 witness seq(11, _ => 0)

  datatype Found = Found(cluster: nat, size: nat)

  predicate IsEnd(s: Sector, i: nat)
    requires i < 16
  {
    s[32 * i] == 0
  }

  /** A file or directory entry in use: not deleted, no long-name slot, no label. */
  predicate IsFile(s: Sector, i: nat)
    requires i < 16
  {
    s[32 * i] != 0xE5 && s[32 * i + 11] != 0x0F && s[32 * i + 11] / 8 % 2 == 0
  }

  predicate Matches(s: Sector, i: nat, name: Name)
    requires i < 16
  {
    IsFile(s, i) && s[32 * i..32 * i + 11] == name
  }

  function EntryAt(s: Sector, i: nat, fat32: bool): Found
    requires i < 16
  {
    Found((if fat32 then 0x1_0000 * Rd16(s, 32 * i + 20) else 0) + Rd16(s, 32 * i + 26), Rd32(s, 32 * i + 28))
  }

  /** Entry `i` is the first in the sector with this name, and no end comes before. */
  predicate FirstMatch(s: Sector, i: nat, name: Name) {
    i < 16 && !IsEnd(s, i) && Matches(s, i, name)
    && forall j :: 0 <= j < i ==> !IsEnd(s, j) && !Matches(s, j, name)
  }

  /** The directory ends in this sector, with no match before. */
  predicate Ends(s: Sector, name: Name) {
    exists i :: 0 <= i < 16 && IsEnd(s, i) && forall j :: 0 <= j < i ==> !Matches(s, j, name)
  }

  /** The sectors of the root directory that a search may read. */
  function RootLbas(g: Geometry, disk: Disk): seq<nat>
    requires g.Valid()
  {
    if g.fat32 then ChainLbas(g, disk, g.rootCluster, MAX_FAT32_ROOT_SECTORS)
    else seq(g.rootSectors, (s: nat) => g.RegionLba(s))
  }

  /** At most `budget` sectors of the chain from `cluster`, cyclic or not. */
  function ChainLbas(g: Geometry, disk: Disk, cluster: nat, budget: nat): seq<nat>
    requires g.Valid()
    decreases budget
  {
    if budget == 0 || !g.Live(cluster) then []
    else if budget < g.spc then ClusterLbas(g, cluster)[..budget]
    else ClusterLbas(g, cluster) + ChainLbas(g, disk, g.Next(disk, cluster), budget - g.spc)
  }

  function ClusterLbas(g: Geometry, cluster: nat): (lbas: seq<nat>)
    requires cluster >= 2
    ensures |lbas| == g.spc
  {
    seq(g.spc, (s: nat) => g.Lba(cluster, s))
  }

  /** Searches the sectors in order. The search stops at the first match or end. */
  ghost function Lookup(g: Geometry, disk: Disk, lbas: seq<nat>, name: Name): Option<Found> {
    if lbas == [] then None
    else
      var s := disk(lbas[0]);
      if exists i :: FirstMatch(s, i, name) then
        var i :| FirstMatch(s, i, name);
        Some(EntryAt(s, i, g.fat32))
      else if Ends(s, name) then None
      else Lookup(g, disk, lbas[1..], name)
  }

  lemma OneFirstMatch(s: Sector, i: nat, j: nat, name: Name)
    requires FirstMatch(s, i, name) && FirstMatch(s, j, name)
    ensures i == j
  {}

  // File contents.

  /** The `i`th cluster of a chain, as long as the chain lasts. */
  function Nth(g: Geometry, disk: Disk, first: nat, i: nat): nat {
    if i == 0 then first
    else
      var c := Nth(g, disk, first, i - 1);
      if g.Live(c) then g.Next(disk, c) else c
  }

  /** The chain from `first` has exactly these clusters to begin with. */
  ghost predicate IsChain(g: Geometry, disk: Disk, first: nat, clusters: seq<nat>) {
    forall i :: 0 <= i < |clusters| ==> clusters[i] == Nth(g, disk, first, i) && g.Live(clusters[i])
  }

  /** Byte `k` of a file in these clusters. */
  function FileByte(g: Geometry, disk: Disk, clusters: seq<nat>, k: nat): byte
    requires g.Valid()
  {
    var q := k / 512;
    if q / g.spc < |clusters| && clusters[q / g.spc] >= 2
    then disk(g.Lba(clusters[q / g.spc], q % g.spc))[k % 512] else 0
  }

  /** The clusters that `size` bytes take. */
  function ClustersFor(g: Geometry, size: nat): nat
    requires g.Valid()
  {
    if size == 0 then 0 else (size - 1) / 512 / g.spc + 1
  }

  /** The chain from `first` is long enough for `size` bytes. */
  ghost predicate Covers(g: Geometry, disk: Disk, first: nat, size: nat)
    requires g.Valid()
  {
    forall i :: 0 <= i < ClustersFor(g, size) ==> g.Live(Nth(g, disk, first, i))
  }

  /** A file that can be loaded: found in the root directory of a supported volume,
      not empty, small enough, and with a long enough chain. */
  ghost predicate Loadable(disk: Disk, g: Geometry, name: Name, max: nat, file: Found)
    requires g.Valid()
  {
    && Lookup(g, disk, RootLbas(g, disk), name) == Some(file)
    && 0 < file.size <= max && file.cluster >= 2
    && Covers(g, disk, file.cluster, file.size)
  }

  predicate Signed(mbr: Sector) {
    mbr[0x1FE] == 0x55 && mbr[0x1FF] == 0xAA
  }

  /** The volume of a card: the first FAT partition, if its boot sector is supported. */
  function Mount(disk: Disk): (g: Option<Geometry>)
    ensures g.Some? ==> g.value.Valid()
  {
    var mbr := disk(0);
    var part := Partition(mbr, 0);
    if !Signed(mbr) || part == 0 then None else Parse(disk(part), part)
  }

  /** How a load from a mounted volume ends when every read works. */
  ghost function LoadCode(disk: Disk, g: Geometry, name: Name, max: nat): int
    requires g.Valid()
  {
    match Lookup(g, disk, RootLbas(g, disk), name)
    case None => -7
    case Some(file) =>
      if file.size == 0 || file.cluster < 2 || file.size > max then -9
      else if !Covers(g, disk, file.cluster, file.size) then -10
      else 0
  }

  /** And from a card. */
  ghost function CardCode(disk: Disk, name: Name, max: nat): int {
    var mbr := disk(0);
    if !Signed(mbr) then -2
    else if Partition(mbr, 0) == 0 then -3
    else if Mount(disk) == None then -5
    else LoadCode(disk, Mount(disk).value, name, max)
  }

  /** 0 is for exactly the loadable files. */
  lemma ZeroExactlyWhenLoadable(disk: Disk, g: Geometry, name: Name, max: nat)
    requires g.Valid()
    ensures LoadCode(disk, g, name, max) == 0 <==> exists file :: Loadable(disk, g, name, max, file)
  {
    var l := Lookup(g, disk, RootLbas(g, disk), name);
    if LoadCode(disk, g, name, max) == 0 {
      assert Loadable(disk, g, name, max, l.value);
    }
  }
}
