# pagebuf: a sector-granular stream reader

`pagebuf.c` simulates a block medium of 32 pages. Each page is 4096 bytes, made of sixteen
256-byte sectors. A medium descriptor (`memdef_t`) holds the medium's bytes and a
(page, sector) cursor (`page_sector_def_t`) naming the next sector to fetch.

- `read_sector_page` copies one whole sector into a buffer and advances the cursor. It refuses,
  with -1, to read page 32, so the cursor stops at (32, 0) once every sector has been fetched.
- `read_bytes` serves reads of any size on top of whole-sector fetches, in three steps:
  1. It hands out the bytes left over in a one-sector staging chunk (`memchunk_t`).
  2. It fetches the whole sectors the request still needs straight into the caller's buffer.
  3. For a non-aligned tail, it fetches one more sector into the chunk, copies the tail out
     and keeps the rest staged for the next call.
- The test program `main` reads a freshly filled medium with every stride from 1 byte up to
  the medium size, and checks each successful read against the medium with `cmp`.

The project has four modules:

- `Geometry` (`geometry.dfy`) holds the sizes and the address of a sector.
- `SectorCursor` (`cursor.dfy`) holds the cursor as a value, with a linear sector number.
- `Stream` (`stream.dfy`) is the reference behaviour the reader must follow, stated only on the
  number of medium bytes consumed so far:
  - a read of `sz` bytes either returns the next `sz` bytes and consumes them;
  - or it fails with -1 and leaves the whole medium consumed.

  It also has runs of reads and the stride loop of `main`. The lemmas here are the round trips:
  - the delivered bytes, concatenated, are exactly a prefix of the medium;
  - failure is sticky;
  - read `k` of a stride run is the medium at offset `k * stride`.
- `PageBuf` (`pagebuf.dfy`) is the imperative model:
  - `MemDef` is a class for `memdef_t`. Its cursor is a mutable field, updated by
    `InitPageSectorDef`, `IncrementSectorPageIdx` and `ReadSectorPage`.
  - `StreamReader` is a class that owns the staging chunk: an `array` of one sector, plus
    `offset` and `availBytes`. `read_bytes` is its method `ReadBytes`. Its one-step methods
    follow the three steps above.
  - The reader's invariant `Valid` says the staged bytes are always the next unread bytes of
    the medium.
  - The postcondition of `ReadBytes` equates each call with `Stream.Read` at the position the
    reader had reached. `ReadRun` issues a sequence of such calls and proves they form the
    reference run: the same return codes, the same final position, and the same delivered
    bytes, which are a contiguous piece of the medium.
  - `Cmp` is the test oracle.
  - `CheckStride` is one pass of `main`'s inner loop. It proves the comparison never fails, and
    that the counts of successful and discarded reads are `131072 / stride` and 0 or 1.

In the source, the staging chunk is a single `static` variable shared by every medium that
`read_bytes` is ever called with. The model makes it state of a reader object instead.
`CheckStride` proves that a pass of `main` always ends with nothing staged, so in `main` the
shared chunk never carries a byte from one medium into the next.

Other modelling choices:

- All sizes are unbounded naturals. Every quantity the source computes stays at or below
  twice the medium size, so `size_t` never wraps in the modelled range.

## Model

| member | source | states |
|---|---|---|
| Geometry.GeometryConsistent | pagebuf.c:23-32 | a page is 16 sectors, and the medium of 32 pages is 131072 bytes, a whole number of sectors |
| Geometry.SectorOffsetInMedium | pagebuf.c:150-151 | on a page below 32, the address of a sector is its linear sector number times 256, and the whole sector lies inside the medium |
| SectorCursor.CursorAt | pagebuf.c:62-65 | every linear sector number has a well-formed (page, sector) cursor designating it |
| SectorCursor.CursorAtSectorIndex | pagebuf.c:126-131 | a well-formed cursor is determined by its linear sector number (inverse of `CursorAt`) |
| SectorCursor.ExhaustedIffAllFetched | pagebuf.c:144-149 | a cursor that has not passed the last sector is on page 32 exactly when every sector has been fetched, and is then at sector 0 |
| Stream.Read | pagebuf.c:160-207 | a read never moves the consumed position backwards or past the end of the medium |
| Stream.ReadNextBytes | pagebuf.c:160-207 | a read returns 0 or -1; it succeeds iff `sz` bytes remain; on success it delivers exactly the next `sz` medium bytes and consumes them; on failure the whole medium is consumed |
| Stream.ZeroLengthRead | pagebuf.c:169-206 | a zero-length read succeeds, delivers nothing and consumes nothing, even on an exhausted medium |
| Stream.ReadsConcatenate | pagebuf.c:169-204 | two successive successful reads deliver what a single read of their total size delivers and end at the same position |
| Stream.Position | pagebuf.c:236-247 | a run of reads ends between its starting position and the end of the medium |
| Stream.Run | pagebuf.c:236-247 | a run of reads has one outcome per requested size |
| Stream.Strides | pagebuf.c:230-236 | the loop's request sizes: `k` reads, all of `stride` bytes |
| Stream.RunSnoc | pagebuf.c:236-247 | one more read extends the run by the read made at the position the run had reached |
| Stream.DeliveredSnoc | pagebuf.c:236-247 | one more outcome appends its data, if it succeeded, to what the run delivered |
| Stream.RunPrefixStep | pagebuf.c:236-247 | extending a prefix of a run by the next size keeps the earlier outcomes, adds the read at the reached position, and appends its data if it succeeded |
| Stream.NothingAfterEnd | pagebuf.c:144-149 | once the medium is fully consumed, no read delivers any byte |
| Stream.RunDeliversPrefix | pagebuf.c:236-243 | the bytes delivered by a run, concatenated, are exactly the medium bytes from the start position on: no byte lost, repeated or reordered |
| Stream.FailureIsSticky | pagebuf.c:144-149 | after a failed read, every later read of nonzero length in the run fails |
| Stream.StuckAtEnd | pagebuf.c:144-149 | from the end of the medium, every read of nonzero length fails |
| Stream.StridePosition | pagebuf.c:236 | after `k` stride reads the position is `k * stride` while that fits, and the medium end otherwise |
| Stream.StrideRoundTrip | pagebuf.c:236-243 | read `k` of a stride run succeeds iff `(k + 1) * stride` fits in the medium, and then delivers the medium at the loop's offset `k * stride` |
| PageBuf.Memcpy | pagebuf.c:155 | the `n` destination bytes equal the source bytes; the rest of the destination is unchanged |
| PageBuf.MemDef.constructor | pagebuf.c:100-117 | a new descriptor holds the given medium of `N_PAGES_MEM(TEST_PAGES)` bytes, with its cursor at (0, 0) |
| PageBuf.MemDef.InitPageSectorDef | pagebuf.c:82-86 | the cursor is reset to sector 0 of page 0 |
| PageBuf.MemDef.IncrementSectorPageIdx | pagebuf.c:126-137 | the cursor advances by exactly one linear sector, wrapping the sector into the next page at 16; the cursor stays well formed |
| PageBuf.MemDef.ReadSectorPage | pagebuf.c:139-158 | returns -1 exactly for page 32, with the buffer and the cursor untouched; otherwise copies that sector into the buffer, leaves the rest of the buffer alone, moves the cursor to the next linear sector and returns 0 |
| PageBuf.SplitRequest | pagebuf.c:169-183 | staged bytes, whole sectors and tail add up to the request; the tail is shorter than a sector; staged bytes are drained until the chunk or the request is used up |
| PageBuf.SplitAfterDrain | pagebuf.c:169-183 | once the staged bytes are drained, the rest of the request splits into the same whole sectors and tail as the whole request |
| PageBuf.StagedCount | pagebuf.c:193-204 | the unread end of the last fetched sector has `(256 - consumed % 256) % 256` bytes; it is empty exactly at a sector boundary |
| PageBuf.StreamReader.constructor | pagebuf.c:161 | a new reader starts with an empty staging chunk, as the zero-initialised `static` chunk does |
| PageBuf.StreamReader.FetchNext | pagebuf.c:186-187 | fetching at the cursor succeeds iff sectors remain; it delivers the sector after those already fetched and moves the cursor to the next linear sector; on failure the cursor is exhausted and the buffer untouched |
| PageBuf.StreamReader.StagedMatchesConsumed | pagebuf.c:169-204 | in every valid reader state, the number of staged bytes is fixed by the number consumed, and it is zero exactly at a sector boundary |
| PageBuf.StreamReader.DrainStaged | pagebuf.c:169-180 | hands out `min(avail_bytes, sz)` staged bytes, which are the next medium bytes; offset and count move by that amount; a request larger than the chunk empties it; the cursor and the chunk's bytes are untouched |
| PageBuf.StreamReader.CopyWholeSectors | pagebuf.c:185-191 | succeeds iff the whole sectors fit in the medium; on success they are the next medium bytes, copied straight into the buffer; on failure the medium is exhausted |
| PageBuf.StreamReader.StageTail | pagebuf.c:193-204 | fetches one sector, hands out its first `rem` bytes and stages the other `256 - rem`; fails iff no sector remains, leaving the chunk untouched |
| PageBuf.StreamReader.ReadFromSectors | pagebuf.c:182-206 | the bytes after the drained part are the next medium bytes; success iff they fit in the medium |
| PageBuf.StreamReader.ReadBytes | pagebuf.c:160-207 | every call is `Stream.Read` at the position reached: same return code, same bytes in `buf[..sz]`; the position advances as the reference says; bytes past `sz` are untouched; the invariant is kept; on failure the cursor is exhausted and nothing is staged; fetch count and chunk follow the split of the request; a zero-length read changes nothing |
| PageBuf.StreamReader.ReadRun | pagebuf.c:236-247 | successive `read_bytes` calls of any sizes return the reference run's codes and end at its position; the bytes of the successful reads, concatenated, are the reference run's delivered bytes, a contiguous piece of the medium from the starting position |
| PageBuf.Cmp | pagebuf.c:209-217 | passes exactly when the first `sz` bytes of both agree |
| PageBuf.ReadStride | pagebuf.c:237-246 | one loop step is `Stream.Read` at the running offset; after a successful read `dst[..stride]` is the medium at that offset, `pass` is exactly that comparison, and it passes; a failed read leaves nothing staged |
| PageBuf.CheckStride | pagebuf.c:230-251 | for every stride from 1 to the medium size, a pass counts `131072 / stride` successful reads and one discarded read iff the stride does not divide the medium; every comparison passes; nothing stays staged at the end |

## Left out

- `randfill_memdef` and the seeding in `main` (`time`, `seed48`, `drand48`, `floor`, and the
  `seedval_t` union sized by `SEED_SIZE`) involve randomness and floating point. The medium's
  contents are an arbitrary sequence passed to the `MemDef` constructor. This is more general than the fill, which never produces the byte 255.
- `init_memdef`, `free_memdef`, `ALLOC_MEM` and `FREE_MEM`: allocation and freeing are not
  modelled as code. The constructor states the state `init_memdef` leaves behind.
- `reset_memdef` and the descriptor fields `current`, `read_bytes` and `remain_bytes` are set
  but never read by the reader, so they are not modelled.
- The `#if defined(DEBUG)` traces and all `printf` output (output only), including `main`'s
  per-stride report line.
- `main`'s outer loop over strides is not modelled as code: `CheckStride` states one pass for
  an arbitrary stride in the loop's range.
- The null-pointer assertions (`assert(buf)`, `assert(sp)`, the `mpp` half of
  `assert(mpp && sz)`) are not modelled, because Dafny references are never null.
- The nonzero-size half of `assert(mpp && sz)` is covered by the `MemDef` constructor's
  requirement that the medium be exactly `N_PAGES_MEM(TEST_PAGES)` bytes.
- The assertion on the remainder at line 194 is a postcondition of `SplitRequest`.
- The chunk itself, a single `static` shared by every medium, is modelled per reader. See the
  introduction for why the two agree in `main`.
- PageBuf.MemDef.ReadSectorPage: requires `pageId <= TestPages`. The source is not memory-safe
  for a page beyond 32, and the reader never asks for one.
- PageBuf.StreamReader.ReadBytes: says nothing about `buf[..sz]` after a failed read. The
  source leaves whatever the copies made before the failure put there, and its caller ignores
  it.
- PageBuf.Cmp: returns `false` where the source's `assert` would abort the program.
  `CheckStride` proves it never returns `false` in `main`.
- `threads.h`, `limits.h` and the unused `KB`/`MB` and `SZ_START`/`SZ_END` macros
  play no part in the reader.
