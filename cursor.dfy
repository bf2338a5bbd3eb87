/** The (page, sector) cursor `page_sector_def_t`: the next sector to fetch. */
module SectorCursor {
  import opened Geometry

  datatype PageSectorDef = PageSectorDef(currentPage: nat, currentSector: nat)

  /** A cursor whose sector number names a sector of a page. */
  predicate WellFormed(p: PageSectorDef) {
    p.currentSector < SectorsPerPage
  }

  /** Linear number of the sector the cursor designates, counting from the first
      sector of page 0: also the number of sectors fetched from a cursor started at (0, 0). */
  function SectorIndex(p: PageSectorDef): nat {
    p.currentPage * SectorsPerPage + p.currentSector
  }

  /** The cursor that designates linear sector `n`. */
  function CursorAt(n: nat): (p: PageSectorDef)
    ensures WellFormed(p) && SectorIndex(p) == n
  {
    PageSectorDef(n / SectorsPerPage, n % SectorsPerPage)
  }

  /** A well-formed cursor is determined by its linear sector number, so `CursorAt`
      and `SectorIndex` are inverse to each other. */
  lemma CursorAtSectorIndex(p: PageSectorDef)
    requires WellFormed(p)
    ensures CursorAt(SectorIndex(p)) == p
  {
  }

  /** The cursor has reached the refused page: no sector can be fetched any more. */
  predicate Exhausted(p: PageSectorDef) {
    p.currentPage == TestPages
  }

  /** A well-formed cursor that has not gone past the last sector of the medium is on a page
      no greater than `TestPages`, and it is exhausted exactly when all sectors are fetched. */
  lemma ExhaustedIffAllFetched(p: PageSectorDef)
    requires WellFormed(p) && SectorIndex(p) <= TotalSectors
    ensures p.currentPage <= TestPages
    ensures Exhausted(p) <==> SectorIndex(p) == TotalSectors
    ensures Exhausted(p) ==> p.currentSector == 0
  {
  }
}
