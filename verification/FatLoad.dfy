/** Loading one root-directory file, with a cache of one FAT sector. */
module FatLoad {
  import opened Bytes
  import opened Division
  import opened LittleEndian
  import opened FatVolume

  /** The static buffers of the loader, over a card whose reads can fail. A failed
      read leaves junk in the buffer. */
  class Loader {
    const disk: Disk
    const fails: nat -> bool
    const junk: (nat, nat) -> byte
    var clock: nat
    const ioBuf: array<byte>
    const fatBuf: array<byte>
    var fatBufLba: nat
    ghost var fatLost: bool

    constructor (disk: Disk, fails: nat -> bool, junk: (nat, nat) -> byte)
      ensures Valid() && fresh(ioBuf) && fresh(fatBuf) && this.disk == disk
      ensures fatBufLba == NO_SECTOR && fatBuf[..] == seq(512, _ => 0)
    {
      this.disk, this.fails, this.junk := disk, fails, junk;
      clock, fatBufLba, fatLost := 0, NO_SECTOR, false;
      ioBuf, fatBuf := new byte[512](_ => 0), new byte[512](_ => 0);
    }

    ghost predicate Valid() {
      ioBuf.Length == fatBuf.Length == 512 && ioBuf != fatBuf
    }

    /** The cached sector is the one on the card. */
    ghost predicate CacheAgrees()
      reads this, fatBuf
      requires Valid()
    {
      fatBufLba != NO_SECTOR ==> fatBuf[..] == disk(fatBufLba)
    }

    ghost predicate Reliable() {
      forall t :: !fails(t)
    }

    method ReadSector(lba: nat, buf: array<byte>, at: nat) returns (ok: bool)
      requires at + 512 <= buf.Length
      modifies `clock, buf
      ensures clock == old(clock) + 1 && (ok <==> !fails(old(clock)))
      ensures ok ==> buf[at..at + 512] == disk(lba)
      ensures forall i :: 0 <= i < buf.Length && !(at <= i < at + 512) ==> buf[i] == old(buf[i])
    {
      ok := !fails(clock);
      forall i | 0 <= i < 512 {
        buf[at + i] := if ok then disk(lba)[i] else junk(clock, i);
      }
      clock := clock + 1;
    }

    /** The next cluster. A read that fails gives an end of chain, and may leave junk in
        the cache under its old number. A sector with the number of the empty cache is
        never read while the cache is empty. */
    method FatEntry(g: Geometry, cluster: nat) returns (next: nat, ghost ok: bool)
      requires Valid() && g.Valid() && CacheAgrees()
      modifies `clock, `fatBufLba, `fatLost, fatBuf
      ensures fatLost == (old(fatLost) || !ok)
      ensures !ok ==> next == if g.fat32 then 0x0FFFFFFF else 0xFFFF
      ensures ok ==> CacheAgrees() && fatBufLba == g.EntrySector(cluster)
      ensures !ok ==> !g.Live(next) && fatBufLba == old(fatBufLba)
      ensures Reliable() ==> ok
      ensures if g.EntrySector(cluster) == NO_SECTOR == old(fatBufLba)
              then ok && clock == old(clock) && next == g.EntryIn(old(fatBuf[..]), cluster)
              else ok ==> next == g.Next(disk, cluster)
    {
      OffsetOfFour(cluster);
      OffsetOfTwo(cluster);
      hide Wrap;
      var off := Wrap(if g.fat32 then cluster * 4 else cluster * 2);
      var lba := Wrap(g.fatStart + off / 512);
      off := off % 512;
      ok := true;
      if lba != fatBufLba {
        var got := ReadSector(lba, fatBuf, 0);
        ok := got;
        if !got {
          fatLost := true;
          return if g.fat32 then 0x0FFFFFFF else 0xFFFF, false;
        }
        assert fatBuf[..] == fatBuf[0..512];
        fatBufLba := lba;
      }
      EntryValue(fatBuf[..], off, g.fat32);
      next := if g.fat32 then Rd32(fatBuf[..], off) % 0x1000_0000 else Rd16(fatBuf[..], off);
    }

    /** Reads and scans one directory sector. */
    method ScanSector(lba: nat, name: Name, fat32: bool) returns (ok: bool, r: Scan)
      requires Valid()
      modifies `clock, ioBuf
      ensures Reliable() ==> ok
      ensures ok ==> r == ScanOf(disk(lba), name, fat32)
    {
      r := More;
      ok := ReadSector(lba, ioBuf, 0);
      if ok {
        assert ioBuf[..] == ioBuf[0..512];
        r := ScanDirSector(ioBuf[..], name, fat32);
        ScanIs(disk(lba), name, fat32, r);
      }
    }

    /** Searches the fixed root directory of a FAT16 volume. */
    method FindInRegion(g: Geometry, name: Name) returns (rc: int, found: Found)
      requires Valid() && g.Valid() && !g.fat32
      modifies `clock, ioBuf
      ensures rc in {0, -6, -7} && (Reliable() ==> rc != -6)
      ensures rc == 0 ==> Lookup(g, disk, RootLbas(g, disk), name) == Some(found)
      ensures rc == -7 ==> Lookup(g, disk, RootLbas(g, disk), name) == None
    {
      hide Lookup;
      found := Found(0, 0);
      ghost var lbas := RootLbas(g, disk);
      assert lbas[0..] == lbas;
      for s := 0 to g.rootSectors
        invariant Lookup(g, disk, lbas, name) == Lookup(g, disk, lbas[s..], name)
      {
        LookupStep(g, disk, lbas[s..], name);
        assert lbas[s..][1..] == lbas[s + 1..] && lbas[s..][0] == g.RegionLba(s);
        var ok, r := ScanSector(Wrap(g.rootStart + s), name, g.fat32);
        if !ok {
          return -6, found;
        }
        if r.Hit? {
          return 0, r.found;
        }
        if r.Stop? {
          return -7, found;
        }
      }
      LookupStep(g, disk, [], name);
      assert lbas[g.rootSectors..] == [];
      rc := -7;
    }

    method FirstSector(g: Geometry, cluster: nat) returns (lba: nat)
      requires cluster >= 2
      ensures lba == g.Lba(cluster, 0)
    {
      lba := Wrap(g.dataStart + (cluster - 2) * g.spc);
    }

    /** Searches one root cluster, at most `budget` sectors of it. `Stop` also
        stands for a used-up budget. */
    method FindInCluster(g: Geometry, name: Name, cluster: nat, budget: nat) returns (ok: bool, r: Scan)
      requires Valid() && g.Valid() && g.fat32 && g.Live(cluster) && budget > 0
      modifies `clock, ioBuf
      ensures Reliable() ==> ok
      ensures ok ==>
        var l := Lookup(g, disk, ChainLbas(g, disk, cluster, budget), name);
        match r
        case Hit(found) => l == Some(found)
        case Stop => l == None
        case More => budget >= g.spc && l == Lookup(g, disk, ChainLbas(g, disk, g.Next(disk, cluster), budget - g.spc), name)
    {
      hide Lookup, ClusterLbas, Wrap, Geometry.Lba;
      var lba := FirstSector(g, cluster);
      ghost var lbas := ChainLbas(g, disk, cluster, budget);
      ClusterFirst(g, disk, cluster, budget);
      assert lbas[0..] == lbas;
      for s := 0 to g.spc
        invariant s <= budget
        invariant Lookup(g, disk, lbas, name) == Lookup(g, disk, lbas[s..], name)
      {
        LookupStep(g, disk, lbas[s..], name);
        if s == budget {
          return true, Stop;
        }
        assert lbas[s..][1..] == lbas[s + 1..] && lbas[s..][0] == g.Lba(cluster, s);
        SectorOfCluster(g, cluster, s);
        ok, r := ScanSector(Wrap(lba + s), name, g.fat32);
        if !ok || !r.More? {
          return;
        }
      }
      ok, r := true, More;
    }

    /** The search of the whole root directory is now the search of what follows. */
    ghost predicate StillToSearch(g: Geometry, cluster: nat, scanned: nat, name: Name)
      requires g.Valid() && scanned <= MAX_FAT32_ROOT_SECTORS
    {
      Lookup(g, disk, RootLbas(g, disk), name)
        == Lookup(g, disk, ChainLbas(g, disk, cluster, MAX_FAT32_ROOT_SECTORS - scanned), name)
    }

    /** Follows the root directory's chain. It stops after 4096 sectors, so it also
        stops on a cyclic chain. */
    method FindInChain(g: Geometry, name: Name) returns (rc: int, found: Found)
      requires Valid() && g.Valid() && g.fat32 && CacheAgrees() && !fatLost
      modifies `clock, `fatBufLba, `fatLost, ioBuf, fatBuf
      ensures rc in {0, -6, -7} && (Reliable() ==> rc != -6)
      ensures rc == 0 && g.FatBelowMarker() ==> Lookup(g, disk, RootLbas(g, disk), name) == Some(found)
      ensures rc == -7 && g.FatBelowMarker() && !fatLost ==> Lookup(g, disk, RootLbas(g, disk), name) == None
      ensures rc == 0 ==> CacheAgrees() && !fatLost
      ensures Reliable() ==> !fatLost
    {
      hide Lookup;
      found := Found(0, 0);
      var cluster, scanned := g.rootCluster, 0;
      ghost var agrees := true;
      while cluster < 0x0FFFFFF8 && cluster >= 2 && scanned < MAX_FAT32_ROOT_SECTORS
        invariant scanned <= MAX_FAT32_ROOT_SECTORS
        invariant agrees ==> CacheAgrees()
        invariant !agrees ==> !g.Live(cluster) && !Reliable()
        invariant fatLost == !agrees
        invariant g.FatBelowMarker() && agrees ==> StillToSearch(g, cluster, scanned, name)
        decreases MAX_FAT32_ROOT_SECTORS - scanned
      {
        var ok, r := FindInCluster(g, name, cluster, MAX_FAT32_ROOT_SECTORS - scanned);
        if !ok {
          return -6, found;
        }
        if r.Hit? {
          return 0, r.found;
        }
        if r.Stop? {
          return -7, found;
        }
        scanned := scanned + g.spc;
        g.BelowMarkerExactlyWhen();
        ghost var got;
        cluster, got := FatEntry(g, cluster);
        agrees := got;
      }
      LookupStep(g, disk, [], name);
      rc := -7;
    }

    method FindInRoot(g: Geometry, name: Name) returns (rc: int, found: Found)
      requires Valid() && g.Valid() && CacheAgrees() && !fatLost
      modifies `clock, `fatBufLba, `fatLost, ioBuf, fatBuf
      ensures rc in {0, -6, -7} && (Reliable() ==> rc != -6)
      ensures rc == 0 && g.FatBelowMarker() ==> Lookup(g, disk, RootLbas(g, disk), name) == Some(found)
      ensures rc == -7 && g.FatBelowMarker() && !fatLost ==> Lookup(g, disk, RootLbas(g, disk), name) == None
      ensures rc == 0 ==> CacheAgrees() && !fatLost
      ensures Reliable() ==> !fatLost
    {
      if g.fat32 {
        rc, found := FindInChain(g, name);
      } else {
        rc, found := FindInRegion(g, name);
      }
    }

    /** dst[..n) is the start of a file in these clusters, which are long enough. */
    ghost predicate Holds(data: seq<byte>, n: nat, g: Geometry, clusters: seq<nat>)
      requires g.Valid()
    {
      n <= |data| && n <= 512 * (|clusters| * g.spc)
      && forall k :: 0 <= k < n ==> data[k] == FileByte(g, disk, clusters, k)
    }

    /** Copies the first `n` bytes of the bounce buffer to dst[at..). */
    method CopyOut(dst: array<byte>, at: nat, n: nat)
      requires Valid() && dst != ioBuf && n <= 512 && at + n <= dst.Length
      modifies dst
      ensures forall j :: at <= j < at + n ==> dst[j] == ioBuf[j - at]
      ensures forall j :: 0 <= j < dst.Length && !(at <= j < at + n) ==> dst[j] == old(dst[j])
    {
      for k := 0 to n
        invariant forall j :: at <= j < at + k ==> dst[j] == ioBuf[j - at]
        invariant forall j :: 0 <= j < dst.Length && !(at <= j < at + k) ==> dst[j] == old(dst[j])
      {
        dst[at + k] := ioBuf[k];
      }
    }

    /** Sector `s` of the `i`th cluster, whole or cut at the file size. A cut sector
        goes through the bounce buffer, so nothing past the size is written. */
    method LoadSector(g: Geometry, cluster: nat, s: nat, dst: array<byte>, loaded: nat, size: nat, ghost clusters: seq<nat>)
      returns (ok: bool, now: nat)
      requires Valid() && g.Valid() && cluster >= 2 && dst != ioBuf && size <= dst.Length
      requires s < g.spc && clusters != [] && cluster == clusters[|clusters| - 1]
      requires loaded == 512 * ((|clusters| - 1) * g.spc + s) < size
      requires Holds(dst[..], loaded, g, clusters)
      modifies `clock, ioBuf, dst
      ensures Reliable() ==> ok
      ensures ok ==> now == (if loaded + 512 <= size then loaded + 512 else size) && Holds(dst[..], now, g, clusters)
      ensures forall k :: size <= k < dst.Length ==> dst[k] == old(dst[k])
    {
      hide Holds, Wrap, Geometry.Lba;
      now := loaded;
      SectorOfCluster(g, cluster, s);
      var first := FirstSector(g, cluster);
      var remain, lba := size - loaded, Wrap(first + s);
      ghost var before := dst[..];
      if remain >= 512 {
        ok := ReadSector(lba, dst, loaded);
        if ok {
          now := loaded + 512;
          assert dst[loaded..now] == disk(lba)[..512];
        }
      } else {
        ok := ReadSector(lba, ioBuf, 0);
        if ok {
          assert ioBuf[0..512] == disk(lba);
          CopyOut(dst, loaded, remain);
          now := loaded + remain;
          assert dst[loaded..now] == ioBuf[0..512][..remain];
        }
      }
      if ok {
        HoldsMore(before, dst[..], loaded, now - loaded, g, clusters, s);
      }
    }

    lemma HoldsMore(before: seq<byte>, data: seq<byte>, loaded: nat, n: nat, g: Geometry, clusters: seq<nat>, s: nat)
      requires g.Valid() && s < g.spc && clusters != [] && n <= 512
      requires loaded == 512 * ((|clusters| - 1) * g.spc + s)
      requires Holds(before, loaded, g, clusters) && |data| == |before| && loaded + n <= |data|
      requires forall k :: 0 <= k < loaded ==> data[k] == before[k]
      requires clusters[|clusters| - 1] >= 2
      requires data[loaded..loaded + n] == disk(g.Lba(clusters[|clusters| - 1], s))[..n]
      ensures Holds(data, loaded + n, g, clusters)
    {
      hide FileByte;
      assert |clusters| * g.spc == (|clusters| - 1) * g.spc + g.spc;
      forall k | 0 <= k < loaded + n ensures data[k] == FileByte(g, disk, clusters, k) {
        if k >= loaded {
          ByteInSector(g, disk, clusters, s, k);
          assert data[k] == data[loaded..loaded + n][k - loaded];
        }
      }
    }

    lemma HoldsNothing(data: seq<byte>, g: Geometry, clusters: seq<nat>)
      requires g.Valid()
      ensures Holds(data, 0, g, clusters)
    {}

    /** The sectors of one cluster, until the file is complete. */
    method LoadCluster(g: Geometry, cluster: nat, dst: array<byte>, loaded0: nat, size: nat, ghost clusters: seq<nat>)
      returns (ok: bool, loaded: nat)
      requires Valid() && g.Valid() && cluster >= 2 && dst != ioBuf && size <= dst.Length
      requires clusters != [] && cluster == clusters[|clusters| - 1] && loaded0 == 512 * ((|clusters| - 1) * g.spc) < size
      requires Holds(dst[..], loaded0, g, clusters)
      modifies `clock, ioBuf, dst
      ensures Reliable() ==> ok
      ensures ok ==> Holds(dst[..], loaded, g, clusters) && loaded0 < loaded <= size
      ensures ok ==> loaded == size || loaded == 512 * (|clusters| * g.spc)
      ensures forall k :: size <= k < dst.Length ==> dst[k] == old(dst[k])
    {
      hide Holds;
      ok, loaded := true, loaded0;
      var s := 0;
      while s < g.spc && loaded < size
        invariant 0 <= s <= g.spc && ok && (s > 0 ==> loaded > loaded0)
        invariant loaded <= size && (loaded == size || loaded == 512 * ((|clusters| - 1) * g.spc + s))
        invariant Holds(dst[..], loaded, g, clusters)
        invariant forall k :: size <= k < dst.Length ==> dst[k] == old(dst[k])
        decreases g.spc - s
      {
        ok, loaded := LoadSector(g, cluster, s, dst, loaded, size, clusters);
        if !ok {
          return;
        }
        s := s + 1;
      }
      assert |clusters| * g.spc == (|clusters| - 1) * g.spc + g.spc;
    }

    /** Follows the file's chain until the file is complete. Every cluster brings at
        least one sector, so a cyclic chain ends too. */
    method LoadChain(g: Geometry, first: nat, size: nat, dst: array<byte>) returns (rc: int, ghost clusters: seq<nat>)
      requires Valid() && g.Valid() && CacheAgrees() && !fatLost && dst != ioBuf && dst != fatBuf && size <= dst.Length
      modifies `clock, `fatBufLba, `fatLost, ioBuf, fatBuf, dst
      ensures rc in {0, -8, -10} && (Reliable() ==> rc != -8)
      ensures rc == 0 ==> Holds(dst[..], size, g, clusters)
      ensures rc == 0 && g.FatBelowMarker() ==> IsChain(g, disk, first, clusters) && Covers(g, disk, first, size)
      ensures rc == -10 && g.FatBelowMarker() && !fatLost ==> !Covers(g, disk, first, size)
      ensures Reliable() ==> !fatLost
      ensures forall k :: size <= k < dst.Length ==> dst[k] == old(dst[k])
    {
      hide Holds, Nth, Covers;
      var cluster, loaded := first, 0;
      clusters := [];
      ghost var agrees := true;
      HoldsNothing(dst[..], g, clusters);
      NthStart(g, disk, first);
      var eoc := if g.fat32 then 0x0FFFFFF8 else 0xFFF8;
      while cluster < eoc && cluster >= 2 && loaded < size
        invariant loaded <= size && (loaded == size || loaded == 512 * (|clusters| * g.spc))
        invariant Holds(dst[..], loaded, g, clusters)
        invariant agrees ==> CacheAgrees()
        invariant !agrees ==> !g.Live(cluster) && !Reliable()
        invariant fatLost == !agrees
        invariant g.FatBelowMarker() ==> IsChain(g, disk, first, clusters)
        invariant g.FatBelowMarker() && agrees ==> cluster == Nth(g, disk, first, |clusters|)
        invariant forall k :: size <= k < dst.Length ==> dst[k] == old(dst[k])
        decreases size - loaded
      {
        NthNext(g, disk, first, |clusters|);
        HoldsLonger(dst[..], loaded, g, clusters, cluster);
        clusters := clusters + [cluster];
        var ok;
        ok, loaded := LoadCluster(g, cluster, dst, loaded, size, clusters);
        if !ok {
          return -8, clusters;
        }
        g.BelowMarkerExactlyWhen();
        ghost var got;
        cluster, got := FatEntry(g, cluster);
        agrees := got;
      }
      rc := if loaded != size then -10 else 0;
      if g.FatBelowMarker() && rc == 0 {
        Covered(g, first, size, clusters, dst[..]);
      } else if g.FatBelowMarker() && agrees {
        NotCovered(g, first, size, loaded, clusters);
      }
    }

    lemma Covered(g: Geometry, first: nat, size: nat, clusters: seq<nat>, data: seq<byte>)
      requires g.Valid() && IsChain(g, disk, first, clusters) && Holds(data, size, g, clusters)
      ensures Covers(g, disk, first, size)
    {
      hide Nth, FileByte;
      if size > 0 { QuotientBelow((size - 1) / 512, |clusters|, g.spc); }
    }

    lemma NotCovered(g: Geometry, first: nat, size: nat, loaded: nat, clusters: seq<nat>)
      requires g.Valid() && loaded == 512 * (|clusters| * g.spc) < size
      requires !g.Live(Nth(g, disk, first, |clusters|))
      ensures !Covers(g, disk, first, size)
    {
      hide Nth;
      QuotientAtLeast((size - 1) / 512, |clusters|, g.spc);
    }

    lemma HoldsLonger(data: seq<byte>, n: nat, g: Geometry, clusters: seq<nat>, cluster: nat)
      requires g.Valid() && Holds(data, n, g, clusters)
      ensures Holds(data, n, g, clusters + [cluster])
    {
      assert (|clusters| + 1) * g.spc == |clusters| * g.spc + g.spc;
      forall k | 0 <= k < n ensures FileByte(g, disk, clusters + [cluster], k) == FileByte(g, disk, clusters, k) {
        QuotientBelow(k / 512, |clusters|, g.spc);
      }
    }

    /** Loads a file of the root directory of the first FAT partition. 0 means that
        dst[..size) is exactly the content of its cluster chain, and nothing past the
        size was written. The code tells the reads that fail apart: -1, -4, -6 and -8. If
        none does, nor a read of the FAT, it is the one that the card gives. */
    method LoadFile(name: Name, dst: array<byte>, max: nat) returns (rc: int, size: nat, ghost clusters: seq<nat>)
      requires Valid() && dst != ioBuf && dst != fatBuf && max <= dst.Length
      modifies `clock, `fatBufLba, `fatLost, ioBuf, fatBuf, dst
      ensures -10 <= rc <= 0
      ensures rc == 0 ==> Mount(disk).Some? && size <= max && Holds(dst[..], size, Mount(disk).value, clusters)
      ensures rc == 0 && Mount(disk).value.FatBelowMarker() ==>
        exists file :: Loadable(disk, Mount(disk).value, name, max, file) && file.size == size
          && IsChain(Mount(disk).value, disk, file.cluster, clusters)
      ensures rc == -1 <==> fails(old(clock))
      ensures rc == -4 <==> !fails(old(clock)) && Signed(disk(0)) && Partition(disk(0), 0) != 0 && fails(old(clock) + 1)
      ensures rc !in {-1, -4, -6, -8} && !fatLost && (Mount(disk).Some? ==> Mount(disk).value.FatBelowMarker()) ==>
        rc == CardCode(disk, name, max)
      ensures Reliable() ==> rc !in {-1, -4, -6, -8} && !fatLost
      ensures rc == 0 ==> forall k :: size <= k < dst.Length ==> dst[k] == old(dst[k])
      ensures forall k :: max <= k < dst.Length ==> dst[k] == old(dst[k])
    {
      hide Holds, IsChain, Partition, Parse, LoadCode;
      size, clusters := 0, [];
      fatBufLba, fatLost := NO_SECTOR, false;
      var ok := ReadSector(0, ioBuf, 0);
      if !ok {
        return -1, 0, [];
      }
      assert ioBuf[..] == ioBuf[0..512];
      if ioBuf[0x1FE] != 0x55 || ioBuf[0x1FF] != 0xAA {
        return -2, 0, [];
      }
      var part := FindPartition(ioBuf[..]);
      if part == 0 {
        return -3, 0, [];
      }
      ok := ReadSector(part, ioBuf, 0);
      if !ok {
        return -4, 0, [];
      }
      assert ioBuf[..] == ioBuf[0..512];
      var parsed := ReadBootSector(ioBuf[..], part);
      if parsed == None {
        return -5, 0, [];
      }
      rc, size, clusters := LoadFrom(parsed.value, name, dst, max);
    }

    method LoadFrom(g: Geometry, name: Name, dst: array<byte>, max: nat) returns (rc: int, size: nat, ghost clusters: seq<nat>)
      requires Valid() && g.Valid() && CacheAgrees() && !fatLost && dst != ioBuf && dst != fatBuf && max <= dst.Length
      modifies `clock, `fatBufLba, `fatLost, ioBuf, fatBuf, dst
      ensures -10 <= rc <= 0
      ensures rc == 0 ==> size <= max && Holds(dst[..], size, g, clusters)
      ensures rc == 0 && g.FatBelowMarker() ==>
        exists file :: Loadable(disk, g, name, max, file) && file.size == size && IsChain(g, disk, file.cluster, clusters)
      ensures rc in {0, -6, -7, -8, -9, -10}
      ensures rc != -6 && rc != -8 && !fatLost && g.FatBelowMarker() ==> rc == LoadCode(disk, g, name, max)
      ensures Reliable() ==> rc != -6 && rc != -8 && !fatLost
      ensures rc == 0 ==> forall k :: size <= k < dst.Length ==> dst[k] == old(dst[k])
      ensures forall k :: max <= k < dst.Length ==> dst[k] == old(dst[k])
    {
      hide Lookup, RootLbas, Covers, Holds, IsChain;
      clusters := [];
      var file;
      rc, file := FindInRoot(g, name);
      size := file.size;
      if rc != 0 {
        return;
      }
      if size == 0 || file.cluster < 2 || size > max {
        return -9, size, clusters;
      }
      rc, clusters := LoadChain(g, file.cluster, size, dst);
      assert rc == 0 && g.FatBelowMarker() ==> Loadable(disk, g, name, max, file);
    }
  }

  lemma EntryValue(sector: Sector, off: nat, fat32: bool)
    ensures fat32 && off + 4 <= 512 ==>
      Rd32(sector, off) % 0x1000_0000 == Le(sector[off], sector[off + 1], sector[off + 2], sector[off + 3] % 16)
    ensures !fat32 && off + 2 <= 512 ==> Rd16(sector, off) == Le(sector[off], sector[off + 1], 0, 0)
  {}

  /** On a card whose FAT reaches the last sector number, a loader that has cached nothing
      takes that sector's entries from its empty buffer: 0, whatever the card says. */
  method EntryOfMarkerSector(disk: Disk, fails: nat -> bool, junk: (nat, nat) -> byte, g: Geometry, cluster: nat)
    returns (next: nat)
    requires g.Valid() && g.EntrySector(cluster) == NO_SECTOR
    ensures next == 0
  {
    var loader := new Loader(disk, fails, junk);
    ghost var ok;
    next, ok := loader.FatEntry(g, cluster);
  }

  /** Which sector of the last cluster holds a byte of the file. */
  lemma ByteInSector(g: Geometry, disk: Disk, clusters: seq<nat>, s: nat, k: nat)
    requires g.Valid() && s < g.spc && clusters != [] && clusters[|clusters| - 1] >= 2
    requires var q := (|clusters| - 1) * g.spc + s; 512 * q <= k < 512 * q + 512
    ensures FileByte(g, disk, clusters, k)
         == disk(g.Lba(clusters[|clusters| - 1], s))[k - 512 * ((|clusters| - 1) * g.spc + s)]
  {
    QuotientIs((|clusters| - 1) * g.spc + s, |clusters| - 1, s, g.spc);
  }

  lemma NthStart(g: Geometry, disk: Disk, first: nat)
    ensures Nth(g, disk, first, 0) == first
  {}

  lemma NthNext(g: Geometry, disk: Disk, first: nat, i: nat)
    ensures g.Live(Nth(g, disk, first, i)) ==> Nth(g, disk, first, i + 1) == g.Next(disk, Nth(g, disk, first, i))
  {}

  /** What a scan of one sector has to report. */
  ghost function ScanOf(s: Sector, name: Name, fat32: bool): Scan {
    if exists i :: FirstMatch(s, i, name) then
      var i :| FirstMatch(s, i, name);
      Hit(EntryAt(s, i, fat32))
    else if Ends(s, name) then Stop
    else More
  }

  lemma ScanIs(s: Sector, name: Name, fat32: bool, r: Scan)
    requires r.Hit? <==> exists i :: FirstMatch(s, i, name)
    requires forall i :: FirstMatch(s, i, name) ==> r == Hit(EntryAt(s, i, fat32))
    requires r == Stop <==> Ends(s, name)
    ensures r == ScanOf(s, name, fat32)
  {}

  lemma LookupStep(g: Geometry, disk: Disk, lbas: seq<nat>, name: Name)
    ensures Lookup(g, disk, lbas, name) ==
      if lbas == [] then None
      else match ScanOf(disk(lbas[0]), name, g.fat32)
        case Hit(found) => Some(found)
        case Stop => None
        case More => Lookup(g, disk, lbas[1..], name)
  {
    if lbas != [] {
      var s := disk(lbas[0]);
      if exists i :: FirstMatch(s, i, name) {
        var i :| FirstMatch(s, i, name);
        forall j | FirstMatch(s, j, name) ensures j == i { OneFirstMatch(s, i, j, name); }
      }
    }
  }

  /** A chain starts with the sectors of its first cluster. */
  lemma ClusterFirst(g: Geometry, disk: Disk, cluster: nat, budget: nat)
    requires g.Valid() && g.Live(cluster) && budget > 0
    ensures var lbas, n := ChainLbas(g, disk, cluster, budget), if budget < g.spc then budget else g.spc;
      && |lbas| >= n
      && (forall s :: 0 <= s < n ==> lbas[s] == g.Lba(cluster, s))
      && (budget >= g.spc ==> lbas[g.spc..] == ChainLbas(g, disk, g.Next(disk, cluster), budget - g.spc))
      && (budget < g.spc ==> |lbas| == budget)
  {}

  /** The first of the four entries with a FAT type. */
  method FindPartition(mbr: Sector) returns (lba: nat)
    ensures lba == Partition(mbr, 0)
  {
    for i := 0 to 4
      invariant Partition(mbr, 0) == Partition(mbr, i)
    {
      var e := 0x1BE + 16 * i;
      var kind := mbr[e + 4];
      if kind == 0x04 || kind == 0x06 || kind == 0x0B || kind == 0x0C || kind == 0x0E {
        return Rd32(mbr, e + 8);
      }
    }
    lba := 0;
  }

  /** The code's test `v != 0 && (v & (v - 1)) == 0`. */
  lemma PowersOfTwo(v: byte)
    ensures IsPowerOfTwo(v) <==> v as bv8 != 0 && v as bv8 & (v as bv8 - 1) == 0
  {}

  /** The volume that a boot sector describes, or None where the source gives -5. */
  method ReadBootSector(bpb: Sector, part: nat) returns (g: Option<Geometry>)
    ensures g == Parse(bpb, part)
  {
    var spc, reserved, fats := bpb[0x0D], Rd16(bpb, 0x0E), bpb[0x10];
    var rootEntries, spf16 := Rd16(bpb, 0x11), Rd16(bpb, 0x16);
    PowersOfTwo(spc);
    if Rd16(bpb, 0x0B) != 512 || !(spc as bv8 != 0 && spc as bv8 & (spc as bv8 - 1) == 0)
      || reserved == 0 || fats == 0 || fats > 4
    {
      return None;
    }
    hide IsPowerOfTwo, Wrap;
    var fat32, spf, rootCluster := spf16 == 0, spf16, 0;
    if fat32 {
      spf, rootCluster := Rd32(bpb, 0x24), Rd32(bpb, 0x2C);
      if spf == 0 || rootCluster < 2 {
        return None;
      }
    } else if rootEntries == 0 {
      return None;
    }
    var fatStart := Wrap(part + reserved);
    var rootStart, rootSectors, dataStart := 0, 0, Wrap(fatStart + fats * spf);
    if !fat32 {
      rootStart, rootSectors := dataStart, (rootEntries * 32 + 511) / 512;
      dataStart := Wrap(rootStart + rootSectors);
    }
    g := Some(Geometry(spc, fatStart, rootStart, rootSectors, dataStart, rootCluster, fat32));
  }

  datatype Scan = Hit(found: Found) | Stop | More

  /** One sector of the directory: the first match, the end, or neither. */
  method ScanDirSector(sec: Sector, name: Name, fat32: bool) returns (r: Scan)
    ensures r.Hit? <==> exists i :: FirstMatch(sec, i, name)
    ensures forall i :: FirstMatch(sec, i, name) ==> r == Hit(EntryAt(sec, i, fat32))
    ensures r == Stop <==> Ends(sec, name)
  {
    for i := 0 to 16
      invariant forall j :: 0 <= j < i ==> !IsEnd(sec, j) && !Matches(sec, j, name)
    {
      var e := i * 32;
      LabelBit(sec[e + 11]);
      if sec[e] == 0x00 {
        assert IsEnd(sec, i);
        return Stop;
      }
      if sec[e] == 0xE5 || sec[e + 11] == 0x0F || sec[e + 11] as bv8 & 0x08 != 0 || sec[e..e + 11] != name {
        continue;
      }
      assert FirstMatch(sec, i, name);
      var hi := if fat32 then Rd16(sec, e + 20) else 0;
      return Hit(Found(hi * 0x1_0000 + Rd16(sec, e + 26), Rd32(sec, e + 28)));
    }
    return More;
  }

  lemma LabelBit(attributes: byte)
    ensures attributes as bv8 & 0x08 != 0 <==> attributes / 8 % 2 == 1
  {}
}
