/** Reading part of a file, with multiple-block transfers along the runs of its
    cluster link map. */
module StorageRead {
  import opened Bytes
  import opened Division

  const STORAGE_EIO: int := -32
  const SD_BLOCKS_MAX: nat := 1024

  /** A file of `size` bytes in a chain of clusters of `csize` sectors. Cluster 2
      starts at sector `database`. */
  datatype Volume = Volume(disk: nat -> Sector, database: nat, csize: nat, chain: seq<nat>, size: nat) {
    ghost predicate Valid() {
      && csize > 0
      && size <= 512 * (|chain| * csize)
      && forall i :: 0 <= i < |chain| ==> chain[i] >= 2
    }

    /** The chain goes on past the end of the file, or the last cluster is not full. */
    predicate EndsInside()
      requires csize > 0
    {
      size / 512 / csize < |chain|
    }

    /** Sector `rest` of a cluster. */
    function Place(cluster: nat, rest: nat): nat
      requires cluster >= 2
    {
      database + (cluster - 2) * csize + rest
    }

    /** The sector of the card that holds sector `q` of the file. */
    function SectorOf(q: nat): nat
      requires csize > 0 && q / csize < |chain| && chain[q / csize] >= 2
    {
      Place(chain[q / csize], q % csize)
    }

    /** Byte `p` of the file, by walking the chain. */
    function FileByte(p: nat): byte
      requires Valid()
    {
      if p / 512 / csize < |chain| then disk(SectorOf(p / 512))[p % 512] else 0
    }
  }

  /** The leading clusters that are contiguous on the card. */
  function RunLength(chain: seq<nat>): (n: nat)
    ensures n <= |chain| && (chain != [] ==> n > 0)
    ensures forall k :: 0 <= k < n ==> chain[k] == chain[0] + k
    ensures 0 < n < |chain| ==> chain[n] != chain[0] + n
  {
    if |chain| <= 1 then |chain|
    else if chain[1] == chain[0] + 1 then
      var n := RunLength(chain[1..]);
      assert forall k :: 0 <= k < n ==> chain[1..][k] == chain[k + 1];
      assert n < |chain| - 1 ==> chain[1..][n] == chain[n + 1];
      1 + n
    else 1
  }

  /** The link map that f_lseek() makes: length and first cluster of each run, and
      a zero at the end. */
  function LinkMap(chain: seq<nat>): seq<nat> {
    if chain == [] then [0]
    else
      var n := RunLength(chain);
      [n, chain[0]] + LinkMap(chain[n..])
  }

  lemma {:induction false} RestOfRun(chain: seq<nat>, k: nat)
    requires k < RunLength(chain)
    ensures RunLength(chain[k..]) == RunLength(chain) - k
  {
    if k == 0 {
      assert chain[0..] == chain;
    } else {
      var n := RunLength(chain);
      assert forall i {:trigger chain[k..][i]} :: 0 <= i < n - k ==> chain[k..][i] == chain[k] + i;
      assert n < |chain| ==> chain[k..][n - k] == chain[n];
    }
  }

  /** Walks the link map to file sector `q`. `count` is the number of sectors from
      there to the end of the run, 0 past the last cluster. */
  method RunAt(clmt: seq<nat>, v: Volume, q: nat) returns (lba: nat, count: nat)
    requires v.Valid() && |clmt| > 0 && clmt[1..] == LinkMap(v.chain)
    ensures q / v.csize >= |v.chain| ==> count == 0
    ensures q / v.csize < |v.chain| ==>
      lba == v.SectorOf(q) && count == Left(RunLength(v.chain[q / v.csize..]), v.csize, q % v.csize)
  {
    hide RunLength, LinkMap, Left, v.Place, v.SectorOf;
    var cluster, rest := q / v.csize, q % v.csize;
    var cl := cluster;
    var t := 1;
    ghost var gone := 0;
    assert v.chain[0..] == v.chain;
    MapStart(v.chain, clmt[1..]);
    while clmt[t] != 0
      invariant 1 <= t < |clmt| && gone <= |v.chain| && clmt[t..] == LinkMap(v.chain[gone..])
      invariant cl == cluster - gone >= 0
      invariant clmt[t] == 0 <==> gone == |v.chain|
      decreases |v.chain| - gone
    {
      ghost var tail := v.chain[gone..];
      MapStep(tail, clmt[t..]);
      var n, first := clmt[t], clmt[t + 1];
      if cl < n {
        InRun(v.chain, gone, cl);
        assert v.chain[cluster] == first + cl;
        SectorIs(v, q, cluster, rest);
        lba := SectorAt(v, first + cl, rest);
        count := Remaining(n - cl, v.csize, rest);
        return;
      }
      cl, t := cl - n, t + 2;
      gone := gone + n;
      assert v.chain[gone..] == tail[n..];
      assert clmt[t..] == clmt[t - 2..][2..];
      MapStart(v.chain[gone..], clmt[t..]);
    }
    return 0, 0;
  }

  lemma MapStart(chain: seq<nat>, map': seq<nat>)
    requires map' == LinkMap(chain)
    ensures |map'| > 0 && (map'[0] == 0 <==> chain == [])
  {}

  lemma MapStep(chain: seq<nat>, map': seq<nat>)
    requires map' == LinkMap(chain) && map'[0] != 0
    ensures |map'| > 2 && chain != [] && map'[0] == RunLength(chain) <= |chain| && map'[1] == chain[0]
    ensures map'[2..] == LinkMap(chain[RunLength(chain)..])
    ensures RunLength(chain) > 0
  {
    MapStart(chain[RunLength(chain)..], LinkMap(chain[RunLength(chain)..]));
  }

  lemma InRun(chain: seq<nat>, gone: nat, cl: nat)
    requires gone < |chain| && cl < RunLength(chain[gone..])
    ensures gone + cl < |chain| && chain[gone + cl] == chain[gone] + cl
    ensures RunLength(chain[gone + cl..]) == RunLength(chain[gone..]) - cl
  {
    RestOfRun(chain[gone..], cl);
    assert chain[gone..][cl..] == chain[gone + cl..];
    assert chain[gone..][cl] == chain[gone + cl];
  }

  /** The sectors from sector `rest` of the first of `n` clusters to the end of the last. */
  function Left(n: nat, csize: nat, rest: nat): (sectors: nat)
    requires n > 0 && rest < csize
    ensures sectors > 0
  {
    assert n * csize >= csize;
    n * csize - rest
  }

  /** The sectors of one transfer are as many as the run, the request and the card allow. */
  ghost predicate IsBatch(v: Volume, q: nat, most: nat, n: nat)
    requires v.Valid()
  {
    && q / v.csize < |v.chain|
    && n == Min(Min(Left(RunLength(v.chain[q / v.csize..]), v.csize, q % v.csize), most), SD_BLOCKS_MAX)
  }

  method SectorAt(v: Volume, cluster: nat, rest: nat) returns (lba: nat)
    requires cluster >= 2
    ensures lba == v.Place(cluster, rest)
  {
    lba := v.database + (cluster - 2) * v.csize + rest;
  }

  method Remaining(n: nat, csize: nat, rest: nat) returns (sectors: nat)
    requires n > 0 && rest < csize
    ensures sectors == Left(n, csize, rest)
  {
    assert n * csize >= csize;
    sectors := n * csize - rest;
  }

  /** The data region is clusters without a gap: number 2 is at its start, and the sectors
      of each follow those of the one before. */
  lemma ClustersTile(v: Volume, cluster: nat, rest: nat)
    requires cluster >= 2
    ensures v.Place(2, 0) == v.database
    ensures v.Place(cluster, rest + 1) == v.Place(cluster, rest) + 1
    ensures v.Place(cluster + 1, 0) == v.Place(cluster, v.csize) == v.Place(cluster, 0) + v.csize
  {
    assert (cluster - 1) * v.csize == (cluster - 2) * v.csize + v.csize;
  }

  /** Sector `q + k` is in the `(q % n + k) / n`th cluster after that of `q`. */
  lemma ClusterOf(q: nat, k: nat, n: nat)
    requires n > 0
    ensures (q + k) / n == q / n + (q % n + k) / n && (q + k) % n == (q % n + k) % n
  {
    var c := q / n;
    assert q + k == c * n + (q % n + k);
    DivideSum(c, q % n + k, n);
  }

  lemma InLeft(run: nat, n: nat, r: nat, k: nat)
    requires run > 0 && r < n && k < Left(run, n, r)
    ensures (r + k) / n < run
  {
    QuotientBelow(r + k, run, n);
  }

  lemma Places(v: Volume, cluster: nat, j: nat, r: nat, k: nat)
    requires v.csize > 0 && cluster >= 2 && j == (r + k) / v.csize
    ensures v.Place(cluster + j, (r + k) % v.csize) == v.Place(cluster, r) + k
  {
    var n := v.csize;
    assert (cluster + j - 2) * n == (cluster - 2) * n + j * n;
    assert r + k == j * n + (r + k) % n;
  }

  /** The cluster of a sector of the run. */
  lemma InTheRun(v: Volume, q: nat, k: nat, c: nat, r: nat, j: nat)
    requires v.Valid() && c == q / v.csize < |v.chain| && r == q % v.csize && j == (r + k) / v.csize
    requires k < Left(RunLength(v.chain[c..]), v.csize, r)
    ensures (q + k) / v.csize == c + j < |v.chain| && (q + k) % v.csize == (r + k) % v.csize
    ensures v.chain[c + j] == v.chain[c] + j
  {
    hide RunLength, Left;
    ClusterOf(q, k, v.csize);
    InLeft(RunLength(v.chain[c..]), v.csize, r, k);
    InRun(v.chain, c, j);
  }

  /** A run of the link map lies on consecutive sectors of the card, which are the
      file's next sectors. */
  lemma RunIsContiguous(v: Volume, q: nat, k: nat)
    requires v.Valid() && q / v.csize < |v.chain|
    requires k < Left(RunLength(v.chain[q / v.csize..]), v.csize, q % v.csize)
    ensures (q + k) / v.csize < |v.chain| && v.SectorOf(q + k) == v.SectorOf(q) + k
  {
    hide RunLength, Left, v.Place, v.SectorOf;
    var c, r := q / v.csize, q % v.csize;
    var j := (r + k) / v.csize;
    InTheRun(v, q, k, c, r, j);
    SameRun(v, q, k, c, r, j);
  }

  lemma SameRun(v: Volume, q: nat, k: nat, c: nat, r: nat, j: nat)
    requires v.Valid() && c + j < |v.chain| && v.chain[c + j] == v.chain[c] + j
    requires q / v.csize == c && q % v.csize == r && (r + k) / v.csize == j
    requires (q + k) / v.csize == c + j && (q + k) % v.csize == (r + k) % v.csize
    ensures v.SectorOf(q + k) == v.SectorOf(q) + k
  {
    hide v.Place, v.SectorOf;
    Places(v, v.chain[c], j, r, k);
    SectorIs(v, q, c, r);
    SectorIs(v, q + k, c + j, (r + k) % v.csize);
  }

  lemma SectorIs(v: Volume, q: nat, c: nat, r: nat)
    requires v.Valid() && c < |v.chain| && q / v.csize == c && q % v.csize == r
    ensures v.SectorOf(q) == v.Place(v.chain[c], r)
  {}

  /** The whole file lies in its chain. */
  lemma InsideFile(v: Volume, p: nat)
    requires v.Valid() && p < v.size
    ensures p / 512 / v.csize < |v.chain|
  {
    var q, n := p / 512, v.csize;
    assert q < |v.chain| * n;
    QuotientBelow(q, |v.chain|, n);
  }

  /** data[at..at + n) is the file from byte `from` on. */
  ghost predicate Holds(data: seq<byte>, at: nat, n: nat, v: Volume, from: nat)
    requires v.Valid()
  {
    at + n <= |data| && forall i :: at <= i < at + n ==> data[i] == v.FileByte(from + (i - at))
  }

  /** data[at..at + 512 * n) is `n` sectors of the card from `lba` on. */
  ghost predicate HoldsSectors(data: seq<byte>, at: nat, n: nat, v: Volume, lba: nat) {
    at + 512 * n <= |data|
    && forall i :: at <= i < at + 512 * n ==> data[i] == v.disk(lba + (i - at) / 512)[(i - at) % 512]
  }

  /** Consecutive card sectors of a run are a slice of the file. */
  lemma SectorsAreTheFile(data: seq<byte>, at: nat, n: nat, v: Volume, q: nat)
    requires v.Valid() && q / v.csize < |v.chain|
    requires n <= Left(RunLength(v.chain[q / v.csize..]), v.csize, q % v.csize)
    requires HoldsSectors(data, at, n, v, v.SectorOf(q))
    ensures Holds(data, at, 512 * n, v, 512 * q)
  {
    hide RunLength, Left, v.Place;
    forall i | at <= i < at + 512 * n ensures data[i] == v.FileByte(512 * q + (i - at)) {
      var k := (i - at) / 512;
      RunIsContiguous(v, q, k);
      assert (512 * q + (i - at)) / 512 == q + k && (512 * q + (i - at)) % 512 == (i - at) % 512;
    }
  }

  datatype Transfer = Moved | NoCmd23 | Broken

  /** An open file on the card, and the code's static state. `clock` counts the
      calls, and the functions give the outcome of each. A failed transfer leaves
      `junk` in the buffer. */
  class OpenFile {
    const v: Volume
    const transfer: nat -> Transfer
    const readOk: nat -> bool
    const seekOk: nat -> bool
    const mapOk: bool
    const cardOk: nat -> bool
    const junk: (nat, nat) -> byte
    var pos: nat
    var clock: nat
    var cltbl: bool
    var clmt: seq<nat>
    var singleBlocks: bool

    constructor (v: Volume, transfer: nat -> Transfer, readOk: nat -> bool, seekOk: nat -> bool, mapOk: bool,
                 cardOk: nat -> bool, junk: (nat, nat) -> byte)
      requires v.Valid()
      ensures Valid() && pos == 0 && !cltbl && !singleBlocks && this.v == v && this.mapOk == mapOk
      ensures this.transfer == transfer && this.readOk == readOk && this.seekOk == seekOk && this.cardOk == cardOk
    {
      this.v, this.transfer, this.readOk, this.seekOk := v, transfer, readOk, seekOk;
      this.mapOk, this.cardOk, this.junk := mapOk, cardOk, junk;
      pos, clock, cltbl, clmt, singleBlocks := 0, 0, false, [], false;
    }

    /** The static link map is the map of this file. */
    ghost predicate Valid()
      reads this
    {
      v.Valid() && pos <= v.size && (cltbl ==> |clmt| > 0 && clmt[1..] == LinkMap(v.chain))
    }

    /** Every call but a multiple-block transfer succeeds. */
    ghost predicate Reliable() {
      (forall t :: readOk(t)) && (forall t :: seekOk(t)) && (forall t :: cardOk(t))
    }

    /** And those too. */
    ghost predicate Flawless() {
      Reliable() && forall t :: transfer(t) == Moved
    }

    /** f_read: as many bytes as the file has from here. */
    method FRead(dst: array<byte>, d: nat, len: nat) returns (ok: bool, got: nat)
      requires Valid() && d + len <= dst.Length
      modifies `pos, `clock, dst
      ensures clock == old(clock) + 1
      ensures ok <==> readOk(old(clock))
      ensures ok ==> got == Min(len, v.size - old(pos))
      ensures pos == if ok then old(pos) + got else old(pos)
      ensures ok ==> Holds(dst[..], d, got, v, old(pos))
      ensures forall i :: 0 <= i < dst.Length && !(d <= i < d + len) ==> dst[i] == old(dst[i])
    {
      ok := readOk(clock);
      got := Min(len, v.size - pos);
      if ok {
        forall k | 0 <= k < got {
          dst[d + k] := v.FileByte(pos + k);
        }
        pos := pos + got;
      } else {
        forall k | 0 <= k < len {
          dst[d + k] := junk(clock, k);
        }
      }
      clock := clock + 1;
    }

    /** f_lseek with a link map, which stops at the end of the file. */
    method FSeek(to: nat) returns (ok: bool)
      modifies `pos, `clock
      ensures clock == old(clock) + 1 && (ok <==> seekOk(old(clock)))
      ensures pos == if !ok then old(pos) else if to <= v.size then to else v.size
    {
      ok := seekOk(clock);
      clock := clock + 1;
      if ok {
        pos := if to <= v.size then to else v.size;
      }
    }

    /** sd_read_blocks: n consecutive sectors, or junk. */
    method ReadBlocks(lba: nat, n: nat, dst: array<byte>, d: nat) returns (r: Transfer)
      requires d + 512 * n <= dst.Length
      modifies `clock, dst
      ensures clock == old(clock) + 1 && r == transfer(old(clock))
      ensures r == Moved ==> HoldsSectors(dst[..], d, n, v, lba)
      ensures forall i :: 0 <= i < dst.Length && !(d <= i < d + 512 * n) ==> dst[i] == old(dst[i])
    {
      r := transfer(clock);
      forall k | 0 <= k < 512 * n {
        dst[d + k] := if r == Moved then v.disk(lba + k / 512)[k % 512] else junk(clock, k);
      }
      clock := clock + 1;
    }

    method ReadSlow(dst: array<byte>, d: nat, len: nat) returns (rc: int)
      requires Valid() && d + len <= dst.Length
      modifies `pos, `clock, dst
      ensures rc == 0 || rc == STORAGE_EIO
      ensures Valid() && clock == old(clock) + 1
      ensures rc == 0 <==> readOk(old(clock)) && old(pos) + len <= v.size
      ensures rc == 0 ==> pos == old(pos) + len && Holds(dst[..], d, len, v, old(pos))
      ensures forall i :: 0 <= i < dst.Length && !(d <= i < d + len) ==> dst[i] == old(dst[i])
    {
      var ok, got := FRead(dst, d, len);
      rc := if ok && got == len then 0 else STORAGE_EIO;
    }

    /** Makes the link map on first use. */
    method EnsureMap()
      requires Valid()
      modifies `cltbl, `clmt, `clock
      ensures Valid() && (cltbl <==> old(cltbl) || mapOk)
    {
      if !cltbl {
        if mapOk {
          clmt := [0] + LinkMap(v.chain);
          assert clmt[1..] == LinkMap(v.chain);
          cltbl := true;
        }
        clock := clock + 1;
      }
    }

    /** One multiple-block transfer: as many sectors as the run, the request and
        the card allow. `Moved` advances; the other outcomes end the fast path. */
    method ReadRun(dst: array<byte>, d: nat, len: nat) returns (rc: int, r: Transfer, n: nat)
      requires Valid() && cltbl && d + len == dst.Length && len >= 512
      modifies `pos, `clock, `singleBlocks, dst
      ensures Valid() && (rc == 0 || rc == STORAGE_EIO)
      ensures forall i :: 0 <= i < d ==> dst[i] == old(dst[i])
      ensures rc == 0 && r == Moved ==> 0 < 512 * n <= len && pos == Min(old(pos) + 512 * n, v.size)
      ensures rc == 0 && r == Moved ==> IsBatch(v, old(pos) / 512, len / 512, n)
      ensures rc == 0 && r == Moved && old(pos) % 512 == 0 ==>
        Holds(dst[..], d, 512 * n, v, old(pos)) && (old(pos) + 512 * n > v.size ==> v.EndsInside())
      ensures rc == 0 && r != Moved ==> pos == old(pos)
      ensures rc == 0 ==> old(pos) < v.size || v.EndsInside()
      ensures Reliable() && (old(pos) < v.size || v.EndsInside()) ==> rc == 0
      ensures Flawless() ==> r == Moved || rc != 0
    {
      hide LinkMap, RunLength, Left, v.SectorOf, v.FileByte, Holds, HoldsSectors;
      var q := pos / 512;
      var lba;
      lba, n := RunAt(clmt, v, q);
      if n > len / 512 {
        n := len / 512;
      }
      if n > SD_BLOCKS_MAX {
        n := SD_BLOCKS_MAX;
      }
      if pos < v.size {
        InsideFile(v, pos);
      }
      if n == 0 {
        return STORAGE_EIO, Broken, 0;
      }
      rc := 0;
      r := ReadBlocks(lba, n, dst, d);
      if r == NoCmd23 {
        singleBlocks := true;
      } else if r == Broken {
        rc := if cardOk(clock) then 0 else STORAGE_EIO;
        clock := clock + 1;
      } else {
        if pos % 512 == 0 {
          SectorsAreTheFile(dst[..], d, n, v, q);
          RunCrossesInside(v, q, n);
        }
        var ok := FSeek(pos + 512 * n);
        rc := if ok then 0 else STORAGE_EIO;
      }
    }

    /** Run by run, until fewer than 512 bytes remain or a transfer does not work. */
    method ReadRuns(dst: array<byte>, d0: nat, len0: nat) returns (rc: int, d: nat, len: nat)
      requires Valid() && d0 + len0 == dst.Length
      requires len0 >= 512 ==> cltbl && pos % 512 == 0
      modifies `pos, `clock, `singleBlocks, dst
      ensures Valid() && (rc == 0 || rc == STORAGE_EIO)
      ensures forall i :: 0 <= i < d0 ==> dst[i] == old(dst[i])
      ensures d0 <= d && d + len == dst.Length && len % 512 == len0 % 512
      ensures rc == 0 ==> SoFar(v, dst[..], d0, d, len, old(pos), pos)
      ensures Reliable() && (old(pos) + len0 <= v.size || v.EndsInside()) ==> rc == 0
      ensures Flawless() && rc == 0 ==> len < 512
    {
      hide Holds, LinkMap, Reliable, v.Valid, v.EndsInside, SoFar, IsBatch;
      ghost var start := pos;
      rc, d, len := 0, d0, len0;
      NothingRead(v, dst[..], d0, len, start);
      while len >= 512
        invariant Valid() && rc == 0 && d0 <= d && d + len == dst.Length && len % 512 == len0 % 512
        invariant SoFar(v, dst[..], d0, d, len, start, pos)
        invariant forall i :: 0 <= i < d0 ==> dst[i] == old(dst[i])
        decreases len
      {
        ghost var before, at := dst[..], pos;
        var r, n;
        Ahead(v, before, d0, d, len, start, at);
        rc, r, n := ReadRun(dst, d, len);
        if rc != 0 {
          return;
        }
        MoreRead(v, before, dst[..], d0, d, len, start, at, if r == Moved then n else 0);
        if r != Moved {
          break;
        }
        d, len := d + 512 * n, len - 512 * n;
      }
    }

    /** The bytes before the fast path, to a sector of the file. */
    function HeadLength(at: nat): nat {
      (512 - at % 512) % 512
    }

    /** Whether a read at `at` into `addr` takes the fast path. */
    predicate Opens(at: nat, len: nat, addr: nat)
      reads `cltbl, `singleBlocks
    {
      HeadLength(at) <= len && (cltbl || mapOk) && !singleBlocks && (addr + HeadLength(at)) % 64 == 0
    }

    /** A read past the end that can go unnoticed: the file goes on after the head, whole
        sectors are asked for, and its last cluster is not full. */
    ghost predicate Unnoticed(at: nat, len: nat)
      requires v.csize > 0
    {
      at + HeadLength(at) <= v.size && HeadLength(at) <= len && (len - HeadLength(at)) % 512 == 0 && v.EndsInside()
    }

    /** The part after the head: runs, and the rest with the plain read. */
    method ReadTail(dst: array<byte>, head: nat) returns (rc: int)
      requires Valid() && head <= dst.Length
      requires dst.Length - head >= 512 ==> cltbl && pos % 512 == 0
      modifies `pos, `clock, `singleBlocks, dst
      ensures Valid() && (rc == 0 || rc == STORAGE_EIO)
      ensures forall i :: 0 <= i < head ==> dst[i] == old(dst[i])
      ensures rc == 0 ==> pos == Min(old(pos) + (dst.Length - head), v.size) && Holds(dst[..], head, pos - old(pos), v, old(pos))
      ensures rc == 0 && old(pos) + (dst.Length - head) > v.size ==> (dst.Length - head) % 512 == 0 && v.EndsInside()
      ensures Reliable() && old(pos) + (dst.Length - head) <= v.size ==> rc == 0
      ensures Flawless() && (dst.Length - head) % 512 == 0 && v.EndsInside() ==> rc == 0
    {
      hide Holds, LinkMap, v.Valid, v.EndsInside;
      ghost var start := pos;
      var d, rest;
      rc, d, rest := ReadRuns(dst, head, dst.Length - head);
      if rc != 0 {
        return;
      }
      ghost var most, at := dst[..], pos;
      rc := ReadSlow(dst, d, rest);
      if rc == 0 {
        Extends(most, dst[..], head, at - start, v, start, rest);
      }
    }

    /** Reads dst.Length bytes at the position into a buffer at address `addr`. For
        every start offset, alignment, fragmentation and outcome of the transfers,
        0 means that the buffer holds exactly that slice of the file. A rejected or
        broken transfer never makes the read fail by itself. Past the end of the file, 0
        is possible exactly on the fast path and if the end goes unnoticed: then the
        buffer holds the file up to its end, and other bytes of the card after it. */
    method Read(dst: array<byte>, addr: nat) returns (rc: int)
      requires Valid()
      modifies `pos, `clock, `cltbl, `clmt, `singleBlocks, dst
      ensures Valid() && (rc == 0 || rc == STORAGE_EIO)
      ensures rc == 0 ==> pos == Min(old(pos) + dst.Length, v.size) && Holds(dst[..], 0, pos - old(pos), v, old(pos))
      ensures Reliable() && old(pos) + dst.Length <= v.size ==> rc == 0
      ensures rc == 0 && old(pos) + dst.Length > v.size ==> old(Opens(pos, dst.Length, addr)) && Unnoticed(old(pos), dst.Length)
      ensures Flawless() && old(Opens(pos, dst.Length, addr)) && Unnoticed(old(pos), dst.Length) ==> rc == 0
    {
      hide Holds, LinkMap, v.Valid, v.EndsInside;
      ghost var start := pos;
      EnsureMap();
      var len := dst.Length;
      var head := (512 - pos % 512) % 512;
      if head > len || !cltbl || singleBlocks || (addr + head) % 64 != 0 {
        head := len;
      }
      HeadEndsSector(pos);
      rc := ReadSlow(dst, 0, head);
      if rc != 0 {
        return;
      }
      ghost var first := dst[..];
      rc := ReadTail(dst, head);
      if rc == 0 {
        Extends(first, dst[..], 0, head, v, start, pos - (start + head));
      }
    }
  }

  /** What the fast path has read from `start`, `d - d0` bytes with `len` to go: the file
      up to the position, or, past the end of the file, all the rest of the file. */
  ghost predicate SoFar(v: Volume, data: seq<byte>, d0: nat, d: nat, len: nat, start: nat, pos: nat)
    requires v.Valid()
  {
    && d0 <= d && d + len == |data| && start <= pos <= v.size && Holds(data, d0, pos - start, v, start)
    && if pos == start + (d - d0) then len >= 512 ==> pos % 512 == 0
       else pos == v.size < start + (d - d0) && v.EndsInside()
  }

  lemma NothingRead(v: Volume, data: seq<byte>, d0: nat, len: nat, start: nat)
    requires v.Valid() && d0 + len == |data| && start <= v.size && (len >= 512 ==> start % 512 == 0)
    ensures SoFar(v, data, d0, d0, len, start, start)
  {}

  /** Where bytes are still to come, there is a cluster to read them from if the read
      ends in the file, or if the file ends inside its chain. */
  lemma Ahead(v: Volume, data: seq<byte>, d0: nat, d: nat, len: nat, start: nat, pos: nat)
    requires v.Valid() && SoFar(v, data, d0, d, len, start, pos) && len > 0
    ensures start + (|data| - d0) <= v.size ==> pos < v.size
  {
    hide Holds;
  }

  lemma MoreRead(v: Volume, before: seq<byte>, data: seq<byte>, d0: nat, d: nat, len: nat, start: nat, pos: nat, n: nat)
    requires v.Valid() && SoFar(v, before, d0, d, len, start, pos) && len >= 512 && 512 * n <= len
    requires |data| == |before| && forall i :: 0 <= i < d ==> data[i] == before[i]
    requires n > 0 && pos % 512 == 0 ==> Holds(data, d, 512 * n, v, pos) && (pos + 512 * n > v.size ==> v.EndsInside())
    ensures SoFar(v, data, d0, d + 512 * n, len - 512 * n, start, Min(pos + 512 * n, v.size))
  {
    hide Holds, v.EndsInside;
    if pos == start + (d - d0) {
      var more := Min(512 * n, v.size - pos);
      FirstPart(data, d, 512 * n, v, pos, more);
      Extends(before, data, d0, d - d0, v, start, more);
    } else {
      Extends(before, data, d0, pos - start, v, start, 0);
    }
  }

  lemma NothingHeld(data: seq<byte>, at: nat, v: Volume, from: nat)
    requires v.Valid() && at <= |data|
    ensures Holds(data, at, 0, v, from)
  {}

  lemma HeadEndsSector(p: nat)
    ensures (p + (512 - p % 512) % 512) % 512 == 0
  {}

  lemma FirstPart(data: seq<byte>, at: nat, n: nat, v: Volume, from: nat, m: nat)
    requires v.Valid() && m <= n && at + n <= |data| && (n > 0 ==> Holds(data, at, n, v, from))
    ensures Holds(data, at, m, v, from)
  {
    hide v.FileByte;
  }

  /** A run that crosses the end of the file shows that the chain goes on there. */
  lemma RunCrossesInside(v: Volume, q: nat, n: nat)
    requires v.Valid() && q / v.csize < |v.chain|
    requires n <= Left(RunLength(v.chain[q / v.csize..]), v.csize, q % v.csize)
    ensures 512 * q <= v.size < 512 * (q + n) ==> v.EndsInside()
  {
    hide RunLength, Left, v.SectorOf, v.Valid;
    if 512 * q <= v.size < 512 * (q + n) {
      RunIsContiguous(v, q, v.size / 512 - q);
    }
  }

  /** A slice of the file, and the slice after it. */
  lemma Extends(before: seq<byte>, data: seq<byte>, at: nat, n: nat, v: Volume, from: nat, more: nat)
    requires v.Valid() && Holds(before, at, n, v, from) && |data| == |before|
    requires forall i :: at <= i < at + n ==> data[i] == before[i]
    requires more > 0 ==> Holds(data, at + n, more, v, from + n)
    ensures Holds(data, at, n + more, v, from)
  {
    hide v.FileByte;
    forall i | at + n <= i < at + n + more ensures data[i] == v.FileByte(from + (i - at)) {
      assert from + n + (i - (at + n)) == from + (i - at);
    }
  }

  /** A file of 700 bytes in one cluster of eight sectors, read as two sectors into an
      aligned buffer: the end goes unnoticed. */
  method ReadPastTheEnd(disk: nat -> Sector) returns (rc: int, dst: array<byte>, ghost v: Volume)
    ensures v.Valid() && v.size == 700 && dst.Length == 1024
    ensures rc == 0 && Holds(dst[..], 0, 700, v, 0)
  {
    v := Volume(disk, 0, 8, [2], 700);
    dst := new byte[1024](_ => 0);
    var f := new OpenFile(Volume(disk, 0, 8, [2], 700), _ => Moved, _ => true, _ => true, true, _ => true, (_, _) => 0);
    rc := f.Read(dst, 0);
  }
}
