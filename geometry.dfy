/** Fixed geometry of the simulated medium: 256-byte sectors, 4096-byte pages,
    16 sectors per page and a medium of 32 pages. */
module Geometry {

  /** One byte of the medium or of a caller's buffer. */
  type byte = bv8

  const SectorSz: nat := 256
  /** `1 << 12` in the source. */
  const PageSz: nat := 4096
  const SectorsPerPage: nat := PageSz / SectorSz
  /** Number of pages of the medium under test; also the page index that is refused. */
  const TestPages: nat := 32

  /** Bytes taken by `x` pages. */
  function NPagesMem(x: nat): nat { x * PageSz }

  /** Size in bytes of the medium under test. */
  const MediumSize: nat := NPagesMem(TestPages)

  /** Number of sectors of the medium under test. */
  const TotalSectors: nat := TestPages * SectorsPerPage

  /** Byte offset in the medium of sector `sectorId` of page `pageId`. */
  function SectorOffset(pageId: nat, sectorId: nat): nat {
    PageSz * pageId + SectorSz * sectorId
  }

  /** The geometry is consistent: pages are whole sectors, the medium is whole sectors. */
  lemma GeometryConsistent()
    ensures SectorsPerPage == 16 && SectorsPerPage * SectorSz == PageSz
    ensures MediumSize == TotalSectors * SectorSz == 131072
  {
  }

  /** Fewer whole sectors take at least one sector less room. */
  lemma FewerSectors(i: nat, n: nat)
    requires i < n
    ensures i * SectorSz + SectorSz <= n * SectorSz
  {
    assert n * SectorSz == i * SectorSz + (n - i) * SectorSz;
  }

  /** The address of a sector on a page below `TestPages` is its linear sector number times
      the sector size, and the whole sector lies inside the medium. */
  lemma SectorOffsetInMedium(pageId: nat, sectorId: nat)
    requires pageId < TestPages && sectorId < SectorsPerPage
    ensures SectorOffset(pageId, sectorId) == (pageId * SectorsPerPage + sectorId) * SectorSz
    ensures SectorOffset(pageId, sectorId) + SectorSz <= MediumSize
  {
  }
}
