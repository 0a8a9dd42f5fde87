/** Loading an image from NAND: pages of four corrected chunks, up to four tries
    for each page, and whole bad blocks skipped. The chip is given by what each
    read returns. */
module Nand {
  import opened Bytes
  import opened Division
  import opened Ecc

  datatype Verdict = Clean | Correctable(regs: seq<Register>) | Uncorrectable

  /** The outcome of one chunk transfer: a sequencer error, or 512 raw bytes with
      the verdict of the decoder. */
  datatype ChunkRead = Failed(rc: int) | Chunk(raw: seq<bv8>, verdict: Verdict)

  /** `command` starts a page read, 0 for success. Reads may differ from one try
      to the next. A load reads each bad-block marker once. */
  datatype Chip = Chip(
    command: (nat, nat) -> int,
    chunk: (nat, nat, nat) -> ChunkRead,
    marker: nat -> Option<bv8>)

  const PAGE_SIZE: nat := 2048
  const CHUNKS: nat := 4
  const PAGE_READ_TRIES: nat := 4
  const MAX_BAD_SKIP: nat := 16
  const NAND_EUNCORRECTABLE: int := -5
  const NAND_EBADPOS: int := -6
  const NAND_ENOGEOM: int := -7
  const NAND_ELEN: int := -9
  const NAND_EBADRUN: int := -10

  /** What the sequencer can report: one of its four errors, and whole chunks. */
  ghost predicate Sane(chip: Chip) {
    && (forall page, try :: -4 <= chip.command(page, try) <= 0)
    && (forall page, c, try :: var r := chip.chunk(page, c, try);
         if r.Failed? then -4 <= r.rc < 0 else |r.raw| == DATA)
  }

  /** Where page `k` of an image starts. */
  function Start(k: nat): nat {
    2048 * k
  }

  type Page = p: seq<bv8> | |p| == PAGE_SIZE witness seq(PAGE_SIZE, _ => 0)

  function Slice(page: Page, c: nat): (chunk: seq<bv8>)
    requires c < CHUNKS
    ensures |chunk| == DATA
  {
    page[DATA * c..DATA * c + DATA]
  }

  predicate IsBlank(data: seq<bv8>) {
    forall i :: 0 <= i < |data| ==> data[i] == 0xFF
  }

  /** The raw bits differ from the stored ones exactly at the reported positions. */
  ghost predicate ReportsErrors(raw: seq<bv8>, stored: seq<bv8>, regs: seq<Register>) {
    && |raw| == |stored| == DATA
    && exists tag, readTag :: |tag| == |readTag| == 4 && DifferAt(raw + readTag, stored + tag, Corrections(regs, 4))
  }

  /** The decoder tells the truth about a chip that stores `content`. */
  ghost predicate Honest(chip: Chip, content: nat -> Page) {
    forall page, c: nat, try | c < CHUNKS && chip.chunk(page, c, try).Chunk? ::
      var r := chip.chunk(page, c, try);
      match r.verdict
      case Clean => r.raw == Slice(content(page), c)
      case Correctable(regs) => AllGood(regs, 4) ==> ReportsErrors(r.raw, Slice(content(page), c), regs)
      case Uncorrectable => IsBlank(r.raw) ==> r.raw == Slice(content(page), c)
  }

  /** A chip without errors: every read is clean and gives what is stored. */
  function Perfect(content: nat -> Page, marker: nat -> Option<bv8>): Chip {
    Chip((page: nat, try: nat) => 0, (page: nat, c: nat, try: nat) => CleanChunk(content, page, c), marker)
  }

  function CleanChunk(content: nat -> Page, page: nat, c: nat): (r: ChunkRead)
    ensures r.Chunk? && r.verdict == Clean && |r.raw| == DATA && (c < CHUNKS ==> r.raw == Slice(content(page), c))
  {
    Chunk(Slice(content(page), if c < CHUNKS then c else 0), Clean)
  }

  lemma PerfectIsHonest(content: nat -> Page, marker: nat -> Option<bv8>)
    ensures Sane(Perfect(content, marker)) && Honest(Perfect(content, marker), content)
  {
    var chip := Perfect(content, marker);
    forall page, c, try ensures chip.chunk(page, c, try) == CleanChunk(content, page, c) {}
  }

  /** What one chunk contributes to the result of a try. */
  function ChunkCode(r: ChunkRead): int {
    match r
    case Failed(rc) => rc
    case Chunk(raw, Clean) => 0
    case Chunk(raw, Correctable(regs)) =>
      if AllGood(regs, 4) && Corrections(regs, 4) != [] then 0 else NAND_EBADPOS
    case Chunk(raw, Uncorrectable) => if IsBlank(raw) then 0 else NAND_EUNCORRECTABLE
  }

  /** The first failure of a try, from chunk `c` on. */
  function ChunksCode(chip: Chip, page: nat, c: nat, try: nat): int
    requires c <= CHUNKS
    decreases CHUNKS - c
  {
    if c == CHUNKS then 0
    else
      var rc := ChunkCode(chip.chunk(page, c, try));
      if rc != 0 then rc else ChunksCode(chip, page, c + 1, try)
  }

  function TryCode(chip: Chip, page: nat, try: nat): int {
    var rc := chip.command(page, try);
    if rc != 0 then rc else ChunksCode(chip, page, 0, try)
  }

  /** Corrections on a scratch tag still restore the stored data. */
  lemma CorrectedChunk(raw: seq<bv8>, stored: seq<bv8>, regs: seq<Register>, scratch: seq<bv8>)
    requires |raw| == DATA && |scratch| == 4 && ReportsErrors(raw, stored, regs)
    ensures Flips(raw + scratch, Corrections(regs, 4))[..DATA] == stored
  {
    hide Flips, Corrections, DifferAt;
    var tag, readTag :|
      |tag| == |readTag| == 4 && DifferAt(raw + readTag, stored + tag, Corrections(regs, 4));
    RestoresExactlyWhen(raw + readTag, stored + tag, Corrections(regs, 4));
    DataIgnoresTag(raw, readTag, scratch, Corrections(regs, 4));
    assert (stored + tag)[..DATA] == stored;
  }

  /** Every word of the chunk is 0xFFFFFFFF. */
  method ChunkIsBlank(dst: array<bv8>, at: nat) returns (blank: bool)
    requires at + DATA <= dst.Length
    ensures blank == IsBlank(dst[at..at + DATA])
  {
    ghost var chunk := dst[at..at + DATA];
    for i := 0 to 128
      invariant forall k :: 0 <= k < 4 * i ==> chunk[k] == 0xFF
    {
      var p := at + 4 * i;
      assert dst[p] == chunk[4 * i] && dst[p + 1] == chunk[4 * i + 1];
      assert dst[p + 2] == chunk[4 * i + 2] && dst[p + 3] == chunk[4 * i + 3];
      if dst[p] != 0xFF || dst[p + 1] != 0xFF || dst[p + 2] != 0xFF || dst[p + 3] != 0xFF {
        return false;
      }
    }
    blank := true;
  }

  method BlockIsBad(chip: Chip, block: nat) returns (bad: bool)
    ensures bad == IsBad(chip, block)
  {
    match chip.marker(block)
    case None => bad := true;
    case Some(marker) => bad := marker != 0xFF;
  }

  /** One chunk into dst[at..at + 512). */
  method ReadChunk(chip: Chip, page: nat, c: nat, try: nat, dst: array<bv8>, at: nat, ghost content: nat -> Page)
    returns (rc: int)
    requires Sane(chip) && Honest(chip, content) && c < CHUNKS && at + DATA <= dst.Length
    modifies dst
    ensures rc == ChunkCode(chip.chunk(page, c, try))
    ensures rc == 0 ==> dst[at..at + DATA] == Slice(content(page), c)
    ensures forall i :: 0 <= i < dst.Length && !(at <= i < at + DATA) ==> dst[i] == old(dst[i])
  {
    var r := chip.chunk(page, c, try);
    if r.Failed? {
      return r.rc;
    }
    assert |r.raw| == DATA;
    forall k | 0 <= k < DATA {
      dst[at + k] := r.raw[k];
    }
    assert dst[at..at + DATA] == r.raw;
    match r.verdict {
      case Clean => rc := 0;
      case Correctable(regs) =>
        var tag := new bv8[4](_ => 0);
        ghost var scratch, was := tag[..], dst[..];
        rc := Apply(regs, dst, at, tag);
        assert forall i :: 0 <= i < at ==> dst[i] == dst[..at][i] == was[..at][i];
        assert forall i :: at + DATA <= i < dst.Length ==> dst[i] == dst[at + DATA..][i - at - DATA] == was[at + DATA..][i - at - DATA];
        assert (dst[at..at + DATA] + tag[..])[..DATA] == dst[at..at + DATA];
        if rc == 0 {
          CorrectedChunk(r.raw, Slice(content(page), c), regs, scratch);
        } else {
          rc := NAND_EBADPOS;
        }
      case Uncorrectable =>
        var blank := ChunkIsBlank(dst, at);
        rc := if blank then 0 else NAND_EUNCORRECTABLE;
    }
  }

  lemma NextSlice(page: Page, c: nat)
    requires c < CHUNKS
    ensures page[..DATA * (c + 1)] == page[..DATA * c] + Slice(page, c)
  {}

  method ReadPageOnce(chip: Chip, page: nat, try: nat, dst: array<bv8>, at: nat, ghost content: nat -> Page)
    returns (rc: int)
    requires Sane(chip) && Honest(chip, content) && at + PAGE_SIZE <= dst.Length
    modifies dst
    ensures rc == TryCode(chip, page, try)
    ensures rc == 0 ==> dst[at..at + PAGE_SIZE] == content(page)
    ensures forall i :: 0 <= i < dst.Length && !(at <= i < at + PAGE_SIZE) ==> dst[i] == old(dst[i])
  {
    hide Sane, Honest;
    rc := chip.command(page, try);
    if rc != 0 {
      return;
    }
    for c := 0 to CHUNKS
      invariant rc == 0
      invariant ChunksCode(chip, page, 0, try) == ChunksCode(chip, page, c, try)
      invariant dst[at..at + DATA * c] == content(page)[..DATA * c]
      invariant forall i :: 0 <= i < dst.Length && !(at <= i < at + PAGE_SIZE) ==> dst[i] == old(dst[i])
    {
      ghost var before := dst[at..at + DATA * c];
      rc := ReadChunk(chip, page, c, try, dst, at + DATA * c, content);
      if rc != 0 {
        return;
      }
      assert dst[at..at + DATA * c] == before;
      NextSlice(content(page), c);
      assert dst[at..at + DATA * (c + 1)] == before + dst[at + DATA * c..at + DATA * c + DATA];
    }
  }

  /** Up to four tries. The failure reported is that of the last. */
  method ReadPage(chip: Chip, page: nat, dst: array<bv8>, at: nat, ghost content: nat -> Page) returns (rc: int)
    requires Sane(chip) && Honest(chip, content) && at + PAGE_SIZE <= dst.Length
    modifies dst
    ensures rc == 0 <==> exists try :: 0 <= try < PAGE_READ_TRIES && TryCode(chip, page, try) == 0
    ensures rc == 0 || rc == TryCode(chip, page, PAGE_READ_TRIES - 1)
    ensures rc == 0 ==> dst[at..at + PAGE_SIZE] == content(page)
    ensures forall i :: 0 <= i < dst.Length && !(at <= i < at + PAGE_SIZE) ==> dst[i] == old(dst[i])
  {
    rc := 0;
    for try := 0 to PAGE_READ_TRIES
      invariant forall t :: 0 <= t < try ==> TryCode(chip, page, t) != 0
      invariant try > 0 ==> rc == TryCode(chip, page, try - 1)
      invariant forall i :: 0 <= i < dst.Length && !(at <= i < at + PAGE_SIZE) ==> dst[i] == old(dst[i])
    {
      rc := ReadPageOnce(chip, page, try, dst, at, content);
      if rc == 0 {
        return;
      }
    }
  }

  /** A block whose marker cannot be read counts as bad. */
  predicate IsBad(chip: Chip, block: nat) {
    chip.marker(block) != Some(0xFF)
  }

  /** The good blocks of [start, end), in order. */
  function GoodBlocks(chip: Chip, start: nat, end: nat): (blocks: seq<nat>)
    requires start <= end
    decreases end - start
  {
    if start == end then []
    else GoodBlocks(chip, start, end - 1) + if IsBad(chip, end - 1) then [] else [end - 1]
  }

  /** Which page of the chip holds page `k` of an image in `blocks`. */
  function PageOf(blocks: seq<nat>, pagesPerBlock: nat, k: nat): nat
    requires pagesPerBlock > 0 && k < |blocks| * pagesPerBlock
  {
    QuotientBelow(k, |blocks|, pagesPerBlock);
    blocks[k / pagesPerBlock] * pagesPerBlock + k % pagesPerBlock
  }

  lemma OneMoreBlock(blocks: seq<nat>, block: nat, p: nat)
    ensures |blocks + [block]| * p == |blocks| * p + p
  {}

  lemma PageOfNewBlock(blocks: seq<nat>, block: nat, p: nat, k: nat)
    requires p > 0 && |blocks| * p <= k < |blocks| * p + p
    requires |blocks + [block]| * p == |blocks| * p + p
    ensures PageOf(blocks + [block], p, k) == block * p + (k - |blocks| * p)
  {
    QuotientIs(k, |blocks|, k - |blocks| * p, p);
  }

  lemma PageOfOldBlock(blocks: seq<nat>, block: nat, p: nat, k: nat)
    requires p > 0 && k < |blocks| * p
    requires |blocks + [block]| * p == |blocks| * p + p
    ensures PageOf(blocks + [block], p, k) == PageOf(blocks, p, k)
  {
    QuotientBelow(k, |blocks|, p);
  }

  ghost predicate HoldsPages(data: seq<bv8>, n: nat, blocks: seq<nat>, p: nat, content: nat -> Page)
    requires p > 0
  {
    Start(n) <= |data| && n <= |blocks| * p
    && forall k :: 0 <= k < n ==> data[Start(k)..Start(k + 1)] == content(PageOf(blocks, p, k))
  }

  /** The first `n` pages of the blocks, one after the other. */
  function Pages(content: nat -> Page, blocks: seq<nat>, p: nat, n: nat): seq<bv8>
    requires p > 0 && n <= |blocks| * p
  {
    if n == 0 then [] else Pages(content, blocks, p, n - 1) + content(PageOf(blocks, p, n - 1))
  }

  lemma {:induction false} HeldPages(data: seq<bv8>, n: nat, blocks: seq<nat>, p: nat, content: nat -> Page)
    requires p > 0 && HoldsPages(data, n, blocks, p, content)
    ensures data[..Start(n)] == Pages(content, blocks, p, n)
  {
    if n > 0 {
      HeldPages(data, n - 1, blocks, p, content);
      assert data[..Start(n)] == data[..Start(n - 1)] + data[Start(n - 1)..Start(n)];
    }
  }

  lemma WholeImage(data: seq<bv8>, bytes: nat, n: nat, blocks: seq<nat>, p: nat, content: nat -> Page)
    requires p > 0 && HoldsPages(data, n, blocks, p, content) && Start(n) == bytes && (|blocks| - 1) * p < n
    ensures IsImage(data[..bytes], bytes / PAGE_SIZE, blocks, p, content)
  {
    HeldPages(data, n, blocks, p, content);
    assert bytes / PAGE_SIZE == n;
  }

  /** The bad blocks among [start, end). */
  function BadCount(chip: Chip, start: nat, end: nat): int
    requires start <= end
  {
    end - start - |GoodBlocks(chip, start, end)|
  }

  lemma HoldsInMoreBlocks(data: seq<bv8>, n: nat, blocks: seq<nat>, block: nat, p: nat, content: nat -> Page)
    requires p > 0 && HoldsPages(data, n, blocks, p, content)
    ensures HoldsPages(data, n, blocks + [block], p, content)
  {
    OneMoreBlock(blocks, block, p);
    forall k | 0 <= k < n ensures PageOf(blocks + [block], p, k) == PageOf(blocks, p, k) {
      PageOfOldBlock(blocks, block, p, k);
    }
  }

  lemma HoldsOneMorePage(before: seq<bv8>, data: seq<bv8>, n: nat, blocks: seq<nat>, p: nat, content: nat -> Page)
    requires p > 0 && HoldsPages(before, n, blocks, p, content)
    requires |data| == |before| && Start(n + 1) <= |data| && n < |blocks| * p
    requires forall i :: 0 <= i < Start(n) ==> data[i] == before[i]
    requires data[Start(n)..Start(n + 1)] == content(PageOf(blocks, p, n))
    ensures HoldsPages(data, n + 1, blocks, p, content)
  {
    forall k | 0 <= k < n
      ensures data[Start(k)..Start(k + 1)] == before[Start(k)..Start(k + 1)]
    {}
  }

  /** All tries of page `k` of the block fail, the last one with this code. */
  ghost predicate Unreadable(chip: Chip, block: nat, p: nat, k: nat, rc: int) {
    && k < p
    && AllTriesFail(chip, block * p + k)
    && rc == TryCode(chip, block * p + k, PAGE_READ_TRIES - 1)
  }

  ghost predicate AllTriesFail(chip: Chip, page: nat) {
    forall try :: 0 <= try < PAGE_READ_TRIES ==> TryCode(chip, page, try) != 0
  }

  lemma UnreadableIs(chip: Chip, block: nat, p: nat, k: nat, rc: int)
    requires Unreadable(chip, block, p, k, rc)
    ensures var page := block * p + k;
      && k < p && TryCode(chip, page, 0) != 0 && TryCode(chip, page, 1) != 0 && TryCode(chip, page, 2) != 0
      && rc == TryCode(chip, page, 3) && rc != 0
  {}

  /** The pages of one good block, or as many as are still wanted. */
  method LoadBlock(chip: Chip, p: nat, dst: array<bv8>, block: nat, done: nat, bytes: nat,
                   ghost blocks: seq<nat>, ghost content: nat -> Page)
    returns (rc: int, now: nat)
    requires Sane(chip) && Honest(chip, content) && p > 0
    requires bytes <= dst.Length && bytes % PAGE_SIZE == 0 && Start(done) < bytes
    requires done == |blocks| * p && HoldsPages(dst[..], done, blocks, p, content)
    modifies dst
    ensures forall i :: bytes <= i < dst.Length ==> dst[i] == old(dst[i])
    ensures rc == 0 ==> done < now <= done + p && Start(now) <= bytes
    ensures rc == 0 ==> HoldsPages(dst[..], now, blocks + [block], p, content)
    ensures rc == 0 ==> now == done + p || Start(now) == bytes
    ensures rc != 0 ==> exists k: nat :: Unreadable(chip, block, p, k, rc)
    ensures -6 <= rc <= 0
  {
    hide HoldsPages, PageOf, GoodBlocks, TryCode, Honest, Sane;
    rc, now := 0, done;
    HoldsInMoreBlocks(dst[..], done, blocks, block, p, content);
    OneMoreBlock(blocks, block, p);
    for k := 0 to p
      invariant rc == 0 && now == done + k && Start(now) <= bytes
      invariant HoldsPages(dst[..], now, blocks + [block], p, content)
      invariant forall i :: bytes <= i < dst.Length ==> dst[i] == old(dst[i])
    {
      if Start(now) == bytes {
        break;
      }
      PageOfNewBlock(blocks, block, p, now);
      ghost var before := dst[..];
      rc := ReadPage(chip, block * p + k, dst, Start(now), content);
      if rc != 0 {
        CodesInRange(chip, block * p + k, PAGE_READ_TRIES - 1);
        assert Unreadable(chip, block, p, k, rc);
        return;
      }
      HoldsOneMorePage(before, dst[..], now, blocks + [block], p, content);
      now := now + 1;
    }
  }

  lemma CodesInRange(chip: Chip, page: nat, try: nat)
    requires Sane(chip)
    ensures -6 <= TryCode(chip, page, try) <= 0
  {
    ChunkCodesInRange(chip, page, 0, try);
  }

  lemma {:induction false} ChunkCodesInRange(chip: Chip, page: nat, c: nat, try: nat)
    requires Sane(chip) && c <= CHUNKS
    ensures -6 <= ChunksCode(chip, page, c, try) <= 0
    decreases CHUNKS - c
  {
    if c < CHUNKS { ChunkCodesInRange(chip, page, c + 1, try); }
  }

  /** `data` holds the pages of `blocks` in order, and ends inside the last block. */
  ghost predicate IsImage(data: seq<bv8>, n: nat, blocks: seq<nat>, p: nat, content: nat -> Page)
    requires p > 0
  {
    (|blocks| - 1) * p < n <= |blocks| * p && data == Pages(content, blocks, p, n)
  }

  /** Loads `bytes` bytes from the good blocks from `start` on. Success means that
      dst holds exactly their pages in order, with at most 16 bad blocks skipped.
      `end` is the block after the last one visited. */
  method LoadImage(chip: Chip, p: nat, dst: array<bv8>, start: nat, bytes: nat, ghost content: nat -> Page)
    returns (rc: int, ghost end: nat)
    requires Sane(chip) && Honest(chip, content) && bytes <= dst.Length
    modifies dst
    ensures p == 0 ==> rc == NAND_ENOGEOM
    ensures p > 0 ==> (rc == NAND_ELEN <==> bytes == 0 || bytes % PAGE_SIZE != 0)
    ensures start <= end
    ensures rc == 0 ==>
      var blocks, n := GoodBlocks(chip, start, end), bytes / PAGE_SIZE;
      && p > 0 && (|blocks| - 1) * p < n <= |blocks| * p
      && dst[..bytes] == Pages(content, blocks, p, n)
    ensures rc == 0 ==> BadCount(chip, start, end) <= MAX_BAD_SKIP
    ensures rc == NAND_EBADRUN ==> BadCount(chip, start, end) == MAX_BAD_SKIP + 1
    ensures rc == NAND_EBADRUN ==> Start(|GoodBlocks(chip, start, end)| * p) < bytes
    ensures -6 <= rc < 0 ==> !IsBad(chip, end) && exists k: nat :: Unreadable(chip, end, p, k, rc)
    ensures rc in {0, NAND_ENOGEOM, NAND_ELEN, NAND_EBADRUN} || -6 <= rc < 0
    ensures forall i :: bytes <= i < dst.Length ==> dst[i] == old(dst[i])
  {
    if p == 0 {
      return NAND_ENOGEOM, start;
    }
    if bytes == 0 || bytes % PAGE_SIZE != 0 {
      return NAND_ELEN, start;
    }
    hide Sane, Honest, GoodBlocks, Pages, IsBad, Unreadable, BadCount;
    rc, end := LoadGood(chip, p, dst, start, bytes, content);
  }

  /** The good blocks, until the image is complete. */
  method LoadGood(chip: Chip, p: nat, dst: array<bv8>, start: nat, bytes: nat, ghost content: nat -> Page)
    returns (rc: int, ghost end: nat)
    requires Sane(chip) && Honest(chip, content) && bytes <= dst.Length
    requires p > 0 && bytes > 0 && bytes % PAGE_SIZE == 0
    modifies dst
    ensures start <= end
    ensures rc == 0 ==> IsImage(dst[..bytes], bytes / PAGE_SIZE, GoodBlocks(chip, start, end), p, content)
    ensures rc == 0 ==> BadCount(chip, start, end) <= MAX_BAD_SKIP
    ensures rc == NAND_EBADRUN ==> BadCount(chip, start, end) == MAX_BAD_SKIP + 1
    ensures rc == NAND_EBADRUN ==> Start(|GoodBlocks(chip, start, end)| * p) < bytes
    ensures -6 <= rc < 0 ==> !IsBad(chip, end) && exists k: nat :: Unreadable(chip, end, p, k, rc)
    ensures rc in {0, NAND_EBADRUN} || -6 <= rc < 0
    ensures forall i :: bytes <= i < dst.Length ==> dst[i] == old(dst[i])
  {
    hide HoldsPages, PageOf, Honest, Sane, Unreadable, Pages, IsImage;
    end := start;
    var block, done, skipped := start, 0, 0;
    NoPages(dst[..], GoodBlocks(chip, start, start), p, content);
    while Start(done) < bytes
      invariant start <= block && Start(done) <= bytes && 0 <= skipped <= MAX_BAD_SKIP
      invariant skipped == BadCount(chip, start, block)
      invariant HoldsPages(dst[..], done, GoodBlocks(chip, start, block), p, content)
      invariant if Start(done) < bytes then done == |GoodBlocks(chip, start, block)| * p
                else (|GoodBlocks(chip, start, block)| - 1) * p < done
      invariant forall i :: bytes <= i < dst.Length ==> dst[i] == old(dst[i])
      decreases bytes - Start(done), MAX_BAD_SKIP - skipped
    {
      end := block;
      ghost var blocks := GoodBlocks(chip, start, block);
      var bad := BlockIsBad(chip, block);
      if bad {
        skipped := skipped + 1;
        end := block + 1;
        assert GoodBlocks(chip, start, block + 1) == blocks + [] == blocks;
        if skipped > MAX_BAD_SKIP {
          return NAND_EBADRUN, end;
        }
        block := block + 1;
        continue;
      }
      var now;
      rc, now := LoadBlock(chip, p, dst, block, done, bytes, blocks, content);
      if rc != 0 {
        return;
      }
      assert GoodBlocks(chip, start, block + 1) == blocks + [block];
      OneMoreBlock(blocks, block, p);
      done, block := now, block + 1;
    }
    rc, end := 0, block;
    WholeImage(dst[..], bytes, done, GoodBlocks(chip, start, end), p, content);
  }

  lemma NoPages(data: seq<bv8>, blocks: seq<nat>, p: nat, content: nat -> Page)
    requires p > 0
    ensures HoldsPages(data, 0, blocks, p, content)
  {}
}
