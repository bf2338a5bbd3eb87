/** The medium descriptor `memdef_t` with its sector cursor, the sector fetch, and the byte
    reader whose staging chunk `memchunk_t` is state of the reader object. */
module PageBuf {
  import opened Geometry
  import opened SectorCursor
  import Stream

  /** `memcpy(dst + dstAt, src + srcAt, n)` between two distinct buffers. */
  method Memcpy(dst: array<byte>, dstAt: nat, src: array<byte>, srcAt: nat, n: nat)
    requires dst != src
    requires dstAt + n <= dst.Length && srcAt + n <= src.Length
    modifies dst
    ensures forall k :: dstAt <= k < dstAt + n ==> dst[k] == src[srcAt + (k - dstAt)]
    ensures forall k :: 0 <= k < dst.Length && !(dstAt <= k < dstAt + n) ==> dst[k] == old(dst[k])
  {
    forall k | dstAt <= k < dstAt + n {
      dst[k] := src[srcAt + (k - dstAt)];
    }
  }

  /** The medium: its bytes, its size and the cursor of the next sector to fetch
      (`memdef_t` without the fields that play no part in reading). */
  class MemDef {
    const start: seq<byte>
    const size: nat
    var psDef: PageSectorDef

    ghost predicate Valid()
      reads this
    {
      size == |start| == MediumSize && WellFormed(psDef)
    }

    /** `init_memdef(&md, N_PAGES_MEM(TEST_PAGES))` followed by the fill fixture, whose
        result is `contents`. */
    constructor (contents: seq<byte>)
      requires |contents| == NPagesMem(TestPages)
      ensures Valid() && start == contents && size == NPagesMem(TestPages)
      ensures psDef == PageSectorDef(0, 0)
    {
      start := contents;
      size := |contents|;
      new;
      InitPageSectorDef();
    }

    /** `init_page_sector_def`: the cursor designates sector 0 of page 0. */
    method InitPageSectorDef()
      modifies this`psDef
      ensures psDef == PageSectorDef(0, 0) && SectorIndex(psDef) == 0
    {
      psDef := psDef.(currentPage := 0);
      psDef := psDef.(currentSector := 0);
    }

    /** `increment_sector_page_idx`: the cursor moves on to the next linear sector. */
    method IncrementSectorPageIdx()
      requires Valid()
      modifies this`psDef
      ensures Valid()
      ensures SectorIndex(psDef) == SectorIndex(old(psDef)) + 1
      ensures psDef == if old(psDef.currentSector) + 1 == SectorsPerPage
                       then PageSectorDef(old(psDef.currentPage) + 1, 0)
                       else PageSectorDef(old(psDef.currentPage), old(psDef.currentSector) + 1)
    {
      psDef := psDef.(currentSector := psDef.currentSector + 1);
      if psDef.currentSector == SectorsPerPage {
        psDef := psDef.(currentSector := 0);
        psDef := psDef.(currentPage := psDef.currentPage + 1);
      }
    }

    /** `read_sector_page(buf + at, pageId, sectorId, md)`: refuses page `TestPages` with -1,
        copying nothing and leaving the cursor alone; otherwise copies that sector of the medium
        into `buf[at..at + SectorSz]`, advances the cursor once and returns 0. */
    method ReadSectorPage(buf: array<byte>, at: nat, pageId: nat, sectorId: nat) returns (rc: int)
      requires Valid()
      requires at + SectorSz <= buf.Length
      requires sectorId < SectorsPerPage
      requires pageId <= TestPages
      modifies this`psDef, buf
      ensures Valid()
      ensures rc == (if pageId == TestPages then -1 else 0)
      ensures rc == -1 ==> psDef == old(psDef) && unchanged(buf)
      ensures rc == 0 ==> SectorIndex(psDef) == SectorIndex(old(psDef)) + 1
      ensures rc == 0 ==> psDef == CursorAt(SectorIndex(old(psDef)) + 1)
      ensures rc == 0 ==> forall k :: at <= k < at + SectorSz ==>
                            buf[k] == start[SectorOffset(pageId, sectorId) + (k - at)]
      ensures rc == 0 ==> forall k :: 0 <= k < buf.Length && !(at <= k < at + SectorSz) ==>
                            buf[k] == old(buf[k])
    {
      if pageId == TestPages {
        return -1;
      }
      SectorOffsetInMedium(pageId, sectorId);
      var src := SectorOffset(pageId, sectorId);
      forall k | at <= k < at + SectorSz {
        buf[k] := start[src + (k - at)];
      }
      IncrementSectorPageIdx();
      CursorAtSectorIndex(psDef);
      return 0;
    }
  }

  /** How `read_bytes` splits a request of `sz` bytes when `avail` bytes are staged:
      bytes drained from the staging chunk, whole sectors, and the non-aligned tail. */
  datatype Split = Split(drained: nat, nSectors: nat, remainder: nat)

  function SplitRequest(avail: nat, sz: nat): (s: Split)
    ensures s.drained + s.nSectors * SectorSz + s.remainder == sz
    ensures s.remainder < SectorSz
    ensures s.drained <= avail && s.drained <= sz && (s.drained == avail || s.drained == sz)
  {
    var drained := if avail < sz then avail else sz;
    var rest := sz - drained;
    Split(drained, rest / SectorSz, rest - rest / SectorSz * SectorSz)
  }

  /** Once the staged bytes are drained, what is left of the request splits into the same
      whole sectors and tail as the whole request. */
  lemma SplitAfterDrain(avail: nat, sz: nat)
    ensures var s := SplitRequest(avail, sz);
      var t := SplitRequest(0, sz - s.drained);
      t.drained == 0 && t.nSectors == s.nSectors && t.remainder == s.remainder
  {
  }

  /** When every fetched sector but the staged bytes is consumed, the number of staged bytes
      is fixed by the number consumed: none exactly at a sector boundary. */
  lemma StagedCount(fetched: nat, avail: nat)
    requires avail < SectorSz && avail <= fetched * SectorSz
    ensures avail == (SectorSz - (fetched * SectorSz - avail) % SectorSz) % SectorSz
    ensures avail == 0 <==> (fetched * SectorSz - avail) % SectorSz == 0
  {
    if avail > 0 {
      var consumed := fetched * SectorSz - avail;
      assert consumed == (fetched - 1) * SectorSz + (SectorSz - avail);
      assert consumed % SectorSz == SectorSz - avail;
    }
  }

  /** A byte reader over one medium: the medium descriptor and the staging chunk (`memchunk_t`:
      `chunk` is its `buf`) that carries the unread end of the last fetched sector. */
  class StreamReader {
    const md: MemDef
    const chunk: array<byte>
    var offset: nat
    var availBytes: nat

    /** Sectors fetched so far from a cursor started at (0, 0). */
    ghost function Fetched(): nat
      reads md
    {
      SectorIndex(md.psDef)
    }

    /** Medium bytes handed out so far: all fetched sectors but the staged bytes. */
    ghost function Consumed(): int
      reads this, md
    {
      Fetched() * SectorSz - availBytes
    }

    /** The cursor is well formed and has not gone past the last sector of the medium. */
    ghost predicate CursorInRange()
      reads md
    {
      md.Valid() && Fetched() <= TotalSectors
    }

    /** The staged bytes `chunk[offset..offset + availBytes]` are the unread end of the last
        fetched sector, that is the next `availBytes` bytes of the medium. */
    ghost predicate Staged()
      reads this, md, chunk
      requires CursorInRange() && chunk.Length == SectorSz
    {
      availBytes < SectorSz && availBytes <= Fetched() * SectorSz &&
      offset <= SectorSz &&
      (availBytes > 0 ==> offset + availBytes == SectorSz) &&
      forall k :: offset <= k < offset + availBytes ==> chunk[k] == md.start[Consumed() + (k - offset)]
    }

    ghost predicate Valid()
      reads this, md, chunk
    {
      CursorInRange() && chunk.Length == SectorSz && Staged()
    }

    /** A reader over `md` with an empty staging chunk, as the zero-initialised `static`
        chunk of the source starts. */
    constructor (md: MemDef)
      requires md.Valid() && SectorIndex(md.psDef) <= TotalSectors
      ensures Valid() && this.md == md && fresh(chunk)
      ensures offset == 0 && availBytes == 0 && Consumed() == SectorIndex(md.psDef) * SectorSz
    {
      this.md := md;
      chunk := new byte[SectorSz];
      offset := 0;
      availBytes := 0;
    }

    /** `read_sector_page(dst, md->ps_def.current_page, md->ps_def.current_sector, md)` as
        `read_bytes` calls it: the next sector of the medium, the one after the `Fetched()`
        sectors already fetched, lands in `buf[at..at + SectorSz]`. */
    method FetchNext(buf: array<byte>, at: nat) returns (rc: int)
      requires CursorInRange()
      requires at + SectorSz <= buf.Length
      modifies md`psDef, buf
      ensures CursorInRange()
      ensures rc == 0 || rc == -1
      ensures rc == 0 <==> old(Fetched()) < TotalSectors
      ensures rc == 0 ==> Fetched() == old(Fetched()) + 1 && md.psDef == CursorAt(old(Fetched()) + 1)
      ensures rc == -1 ==> md.psDef == old(md.psDef) && Exhausted(md.psDef) && Fetched() == TotalSectors
      ensures rc == -1 ==> unchanged(buf)
      ensures rc == 0 ==> forall k :: at <= k < at + SectorSz ==>
                            buf[k] == md.start[old(Fetched()) * SectorSz + (k - at)]
      ensures forall k :: 0 <= k < buf.Length && !(at <= k < at + SectorSz) ==> buf[k] == old(buf[k])
    {
      ghost var f0 := Fetched();
      ExhaustedIffAllFetched(md.psDef);
      if md.psDef.currentPage < TestPages {
        SectorOffsetInMedium(md.psDef.currentPage, md.psDef.currentSector);
      }
      ghost var base := SectorOffset(md.psDef.currentPage, md.psDef.currentSector);
      rc := md.ReadSectorPage(buf, at, md.psDef.currentPage, md.psDef.currentSector);
      if rc == 0 {
        assert base == f0 * SectorSz;
      }
    }

    /** Sector accounting: in every valid state the number of staged bytes is fixed by the
        number of bytes consumed, and nothing is staged exactly at a sector boundary. */
    lemma StagedMatchesConsumed()
      requires Valid()
      ensures 0 <= Consumed() <= MediumSize
      ensures availBytes == (SectorSz - Consumed() % SectorSz) % SectorSz
      ensures availBytes == 0 <==> Consumed() % SectorSz == 0
    {
      StagedCount(Fetched(), availBytes);
    }

    /** Step 1 of `read_bytes`: hand out up to `sz` staged bytes at the front of `buf`. */
    method DrainStaged(buf: array<byte>, sz: nat) returns (min: nat)
      requires Valid()
      requires sz <= buf.Length
      requires buf != chunk
      modifies this, buf
      ensures Valid()
      ensures unchanged(md) && unchanged(chunk)
      ensures min == SplitRequest(old(availBytes), sz).drained
      ensures offset == old(offset) + min && availBytes == old(availBytes) - min
      ensures offset + availBytes == old(offset + availBytes)
      ensures min < sz ==> availBytes == 0
      ensures Consumed() == old(Consumed()) + min
      ensures forall k :: 0 <= k < min ==> buf[k] == md.start[old(Consumed()) + k]
      ensures forall k :: min <= k < buf.Length ==> buf[k] == old(buf[k])
    {
      min := 0;
      if availBytes != 0 {
        min := if availBytes < sz then availBytes else sz;
        Memcpy(buf, 0, chunk, offset, min);
        offset := offset + min;
        availBytes := availBytes - min;
      }
    }

    /** Step 2 of `read_bytes`: fetch `nSectors` whole sectors straight into `buf[dst..]`,
        giving up with -1 at the first refused fetch. */
    method CopyWholeSectors(buf: array<byte>, dst: nat, nSectors: nat) returns (rc: int)
      requires Valid()
      requires nSectors > 0 ==> availBytes == 0
      requires dst + nSectors * SectorSz <= buf.Length
      requires buf != chunk
      modifies md`psDef, buf
      ensures Valid()
      ensures rc == 0 || rc == -1
      ensures rc == 0 <==> old(Consumed()) + nSectors * SectorSz <= MediumSize
      ensures rc == 0 ==> Consumed() == old(Consumed()) + nSectors * SectorSz
      ensures rc == 0 ==> Fetched() == old(Fetched()) + nSectors
      ensures nSectors == 0 ==> md.psDef == old(md.psDef)
      ensures rc == -1 ==> Exhausted(md.psDef) && Consumed() == MediumSize
      ensures rc == 0 ==> forall k :: dst <= k < dst + nSectors * SectorSz ==>
                            buf[k] == md.start[old(Consumed()) + (k - dst)]
      ensures forall k :: 0 <= k < buf.Length && !(dst <= k < dst + nSectors * SectorSz) ==>
                buf[k] == old(buf[k])
    {
      ghost var c0 := Consumed();
      var at := dst;
      var i := 0;
      while i < nSectors
        invariant 0 <= i <= nSectors
        invariant CursorInRange()
        invariant i == 0 ==> md.psDef == old(md.psDef)
        invariant at - dst == i * SectorSz && at <= dst + nSectors * SectorSz
        invariant Fetched() == old(Fetched()) + i
        invariant Consumed() == c0 + (at - dst)
        invariant forall k :: dst <= k < at ==> buf[k] == md.start[c0 + (k - dst)]
        invariant forall k :: 0 <= k < buf.Length && !(dst <= k < dst + nSectors * SectorSz) ==>
                    buf[k] == old(buf[k])
      {
        FewerSectors(i, nSectors);
        var r := FetchNext(buf, at);
        if r == -1 {
          return -1;
        }
        assert (Fetched() - 1) * SectorSz == Fetched() * SectorSz - SectorSz;
        at := at + SectorSz;
        i := i + 1;
      }
      return 0;
    }

    /** Step 3 of `read_bytes`: fetch one sector into the chunk, hand out its first `rem` bytes
        at `buf[dst..]` and stage the other `SectorSz - rem`; on a refused fetch return -1 with
        the chunk untouched. */
    method StageTail(buf: array<byte>, dst: nat, rem: nat) returns (rc: int)
      requires Valid()
      requires availBytes == 0
      requires 0 < rem < SectorSz && dst + rem <= buf.Length
      requires buf != chunk
      modifies this, md`psDef, chunk, buf
      ensures Valid()
      ensures rc == 0 || rc == -1
      ensures rc == 0 <==> old(Consumed()) + rem <= MediumSize
      ensures rc == 0 ==> Consumed() == old(Consumed()) + rem && Fetched() == old(Fetched()) + 1
      ensures rc == 0 ==> availBytes == SectorSz - rem && offset == rem
      ensures rc == -1 ==> Exhausted(md.psDef) && Consumed() == MediumSize
      ensures rc == -1 ==> offset == old(offset) && availBytes == 0 && unchanged(chunk)
      ensures rc == 0 ==> forall k :: dst <= k < dst + rem ==>
                            buf[k] == md.start[old(Consumed()) + (k - dst)]
      ensures forall k :: 0 <= k < buf.Length && !(dst <= k < dst + rem) ==> buf[k] == old(buf[k])
    {
      ghost var c0 := Consumed();
      var r := FetchNext(chunk, 0);
      if r == -1 {
        return -1;
      }
      Memcpy(buf, dst, chunk, 0, rem);
      availBytes := SectorSz - rem;
      offset := rem;
      assert Consumed() == c0 + rem;
      return 0;
    }

    /** Steps 2 and 3 of `read_bytes` on what is left of the request once the staged bytes
        are drained: `sz` more bytes of the medium into `buf[dst..dst + sz]`. */
    method ReadFromSectors(buf: array<byte>, dst: nat, sz: nat) returns (rc: int)
      requires Valid()
      requires sz > 0 ==> availBytes == 0
      requires dst + sz <= buf.Length
      requires buf != chunk
      modifies this, md`psDef, chunk, buf
      ensures Valid()
      ensures rc == 0 || rc == -1
      ensures rc == 0 <==> old(Consumed()) + sz <= MediumSize
      ensures rc == 0 ==> Consumed() == old(Consumed()) + sz
      ensures rc == -1 ==> Exhausted(md.psDef) && Consumed() == MediumSize
      ensures rc == -1 ==> availBytes == 0 && offset == old(offset)
      ensures var s := SplitRequest(0, sz);
        rc == 0 ==> Fetched() == old(Fetched()) + s.nSectors + (if s.remainder > 0 then 1 else 0)
      ensures var s := SplitRequest(0, sz);
        rc == 0 && s.remainder > 0 ==> availBytes == SectorSz - s.remainder && offset == s.remainder
      ensures var s := SplitRequest(0, sz);
        rc == 0 && s.remainder == 0 ==> availBytes == old(availBytes) && offset == old(offset) && unchanged(chunk)
      ensures sz == 0 ==> rc == 0 && md.psDef == old(md.psDef)
      ensures rc == 0 ==> forall k :: dst <= k < dst + sz ==> buf[k] == md.start[old(Consumed()) + (k - dst)]
      ensures forall k :: 0 <= k < buf.Length && !(dst <= k < dst + sz) ==> buf[k] == old(buf[k])
    {
      var nSectors := sz / SectorSz;
      var remainderSectorBytes := sz - nSectors * SectorSz;
      rc := CopyWholeSectors(buf, dst, nSectors);
      if rc == -1 {
        return;
      }
      var at := dst + nSectors * SectorSz;
      if remainderSectorBytes != 0 {
        rc := StageTail(buf, at, remainderSectorBytes);
      }
    }

    /** `read_bytes(buf, sz, md)`: drain the staged bytes, then read the rest of the request
        from whole sectors and a staged tail; -1 as soon as a fetch is refused. */
    method ReadBytes(buf: array<byte>, sz: nat) returns (rc: int)
      requires Valid()
      requires sz <= buf.Length
      requires buf != chunk
      modifies this, md`psDef, chunk, buf
      ensures Valid()
      // The result is the reference read at the position reached so far.
      ensures var o := Stream.Read(md.start, old(Consumed()), sz);
        rc == o.rc && Consumed() == o.consumed && (rc == 0 ==> buf[..sz] == o.data)
      ensures forall k :: sz <= k < buf.Length ==> buf[k] == old(buf[k])
      // A failure leaves the cursor exhausted and nothing staged.
      ensures rc == -1 ==> Exhausted(md.psDef) && availBytes == 0
      // The staging chunk and the number of sector fetches follow the split of the request.
      ensures var s := SplitRequest(old(availBytes), sz);
        rc == -1 ==> offset == old(offset) + s.drained
      ensures var s := SplitRequest(old(availBytes), sz);
        rc == 0 ==> Fetched() == old(Fetched()) + s.nSectors + (if s.remainder > 0 then 1 else 0)
      ensures var s := SplitRequest(old(availBytes), sz);
        rc == 0 && s.remainder > 0 ==> availBytes == SectorSz - s.remainder && offset == s.remainder
      ensures var s := SplitRequest(old(availBytes), sz);
        rc == 0 && s.remainder == 0 ==>
          availBytes == old(availBytes) - s.drained && offset == old(offset) + s.drained &&
          unchanged(chunk)
      // A zero-length read fetches nothing and changes nothing.
      ensures sz == 0 ==> rc == 0 && md.psDef == old(md.psDef) && availBytes == old(availBytes) &&
                          offset == old(offset) && unchanged(chunk)
    {
      ghost var c0 := Consumed();
      SplitAfterDrain(availBytes, sz);
      var min := DrainStaged(buf, sz);
      rc := ReadFromSectors(buf, min, sz - min);
      if rc == 0 {
        assert forall k :: 0 <= k < sz ==> buf[k] == md.start[c0 + k];
        assert buf[..sz] == md.start[c0..c0 + sz];
      }
    }

    /** Successive `read_bytes` calls of the sizes `sizes` into one buffer, as a caller such as
        the test loop issues them: the return codes and the final position are those of the
        reference run, and `got`, the bytes of the successful reads concatenated in order, is
        what the reference run delivers, a contiguous piece of the medium. */
    method ReadRun(buf: array<byte>, sizes: seq<nat>) returns (rcs: seq<int>, got: seq<byte>)
      requires Valid()
      requires forall i :: 0 <= i < |sizes| ==> sizes[i] <= buf.Length
      requires buf != chunk
      modifies this, md`psDef, chunk, buf
      ensures Valid()
      ensures |rcs| == |sizes|
      ensures forall i :: 0 <= i < |sizes| ==> rcs[i] == Stream.Run(md.start, old(Consumed()), sizes)[i].rc
      ensures Consumed() == Stream.Position(md.start, old(Consumed()), sizes)
      ensures got == Stream.Delivered(Stream.Run(md.start, old(Consumed()), sizes))
      ensures old(Consumed()) + |got| <= MediumSize &&
              got == md.start[old(Consumed())..old(Consumed()) + |got|]
    {
      StagedMatchesConsumed();
      ghost var c0: nat := Consumed();
      rcs, got := [], [];
      var n := 0;
      while n < |sizes|
        invariant 0 <= n <= |sizes|
        invariant Valid()
        invariant |rcs| == n
        invariant forall i :: 0 <= i < n ==> rcs[i] == Stream.Run(md.start, c0, sizes[..n])[i].rc
        invariant Consumed() == Stream.Position(md.start, c0, sizes[..n])
        invariant got == Stream.Delivered(Stream.Run(md.start, c0, sizes[..n]))
      {
        Stream.RunPrefixStep(md.start, c0, sizes, n);
        var rc := ReadBytes(buf, sizes[n]);
        if rc == 0 {
          got := got + buf[..sizes[n]];
        }
        rcs := rcs + [rc];
        n := n + 1;
      }
      assert sizes[..n] == sizes;
      Stream.RunDeliversPrefix(md.start, c0, sizes);
    }
  }

  /** `cmp(a, b, sz)`: the test oracle; `pass` is false where the source's assertion would fire. */
  method Cmp(a: array<byte>, b: seq<byte>, sz: nat) returns (pass: bool)
    requires sz <= a.Length && sz <= |b|
    ensures pass <==> a[..sz] == b[..sz]
  {
    var i := 0;
    while i < sz
      invariant 0 <= i <= sz
      invariant forall j :: 0 <= j < i ==> a[j] == b[j]
    {
      if a[i] != b[i] {
        assert a[..sz][i] != b[..sz][i];
        return false;
      }
      i := i + 1;
    }
    assert a[..sz] == b[..sz];
    return true;
  }

  /** One step of the test program's loop: read `stride` bytes into `dst` and compare them with
      the medium at the position the reader had reached; the comparison never fails. */
  method ReadStride(r: StreamReader, dst: array<byte>, rdBytes: nat, stride: nat)
    returns (rc: int, pass: bool)
    requires r.Valid() && r.Consumed() == rdBytes
    requires stride <= dst.Length && dst != r.chunk
    modifies r, r.md`psDef, r.chunk, dst
    ensures r.Valid()
    ensures var o := Stream.Read(r.md.start, old(r.Consumed()), stride);
      rc == o.rc && r.Consumed() == o.consumed
    ensures rc == -1 ==> r.availBytes == 0
    ensures rc == 0 ==> dst[..stride] == r.md.start[rdBytes..rdBytes + stride]
    ensures rc == 0 ==> (pass <==> dst[..stride] == r.md.start[rdBytes..rdBytes + stride])
    ensures rc == 0 ==> pass
  {
    r.StagedMatchesConsumed();
    rc := r.ReadBytes(dst, stride);
    pass := true;
    if rc == 0 {
      pass := Cmp(dst, r.md.start[rdBytes..], stride);
      assert r.md.start[rdBytes..][..stride] == r.md.start[rdBytes..rdBytes + stride];
    }
  }

  /** `q` is the quotient of `n` by `d` when `q * d <= n < (q + 1) * d`. */
  lemma QuotientByBounds(q: nat, d: nat, n: nat)
    requires 0 < d && q * d <= n < q * d + d
    ensures n / d == q && (n % d == 0 <==> q * d == n)
  {
    var e := n / d - q;
    assert d * (n / d) + n % d == n;
    assert e * d == (n - q * d) - n % d;
  }

  /** One pass of the test program's loop for a fixed `stride`: a fresh medium holding
      `contents` and a fresh reader, reads of `stride` bytes while the running offset is inside
      the medium, and the `cmp` check after every successful read, which never fails. The reads
      that succeed are exactly the `MediumSize / stride` whole strides; at most one is discarded.
      `leftStaged` is what the reader still has staged when the pass ends: nothing, so the
      source's single `static` chunk carries no byte from one stride's medium into the next. */
  method CheckStride(contents: seq<byte>, stride: nat)
    returns (nStrides: nat, nDiscards: nat, leftStaged: nat)
    requires |contents| == NPagesMem(TestPages)
    requires 1 <= stride <= NPagesMem(TestPages)
    ensures nStrides == MediumSize / stride
    ensures nDiscards == if MediumSize % stride == 0 then 0 else 1
    ensures leftStaged == 0
  {
    var md := new MemDef(contents);
    var r := new StreamReader(md);
    var dst := new byte[NPagesMem(TestPages)];
    nStrides, nDiscards := 0, 0;
    var rdBytes := 0;
    while rdBytes < NPagesMem(TestPages)
      invariant fresh(md) && fresh(r) && fresh(r.chunk) && fresh(dst)
      invariant r.md == md && md.start == contents && dst != r.chunk
      invariant dst.Length == MediumSize && r.Valid()
      invariant nDiscards <= 1
      invariant nDiscards == 0 ==> rdBytes == nStrides * stride <= MediumSize && r.Consumed() == rdBytes
      invariant nDiscards == 1 ==> rdBytes == nStrides * stride + stride &&
                                   nStrides * stride < MediumSize < rdBytes && r.availBytes == 0
      decreases MediumSize - rdBytes
    {
      assert nDiscards == 0;
      var rc, pass := ReadStride(r, dst, rdBytes, stride);
      if rc == 0 {
        assert pass;
        assert (nStrides + 1) * stride == nStrides * stride + stride;
        nStrides := nStrides + 1;
      } else {
        nDiscards := nDiscards + 1;
      }
      rdBytes := rdBytes + stride;
    }
    QuotientByBounds(nStrides, stride, MediumSize);
    r.StagedMatchesConsumed();
    leftStaged := r.availBytes;
  }
}
