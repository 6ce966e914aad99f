/**
 The merge buffer collects two sectors, so that they can be programmed as one page.
 */
module Merging {
  import opened Geometry
  import opened LayerState

  class MergeBuffer {
    const lsas: array<Word>
    const data: array<Word>
    var isa: int
    /** What the two arrays hold. */
    ghost var who: seq<Word>
    ghost var page: Page

    ghost predicate Sized() {
      lsas.Length == SECTORS_PER_PAGE && data.Length == ENTRIES_PER_PAGE && lsas != data
    }

    ghost predicate Valid()
      reads this, lsas, data
    {
      && Sized() && who == lsas[..] && page == data[..] && 0 <= isa <= SECTORS_PER_PAGE
    }

    constructor ()
      ensures Valid() && fresh(lsas) && fresh(data)
    {
      lsas := new Word[SECTORS_PER_PAGE](_ => N_LAS);
      data := new Word[ENTRIES_PER_PAGE](_ => 0);
      isa := 0;
      who := seq(SECTORS_PER_PAGE, _ => N_LAS);
      page := seq(ENTRIES_PER_PAGE, _ => 0);
    }

    method Invalidate()
      requires Sized()
      modifies this, lsas
      ensures Valid() && isa == 0 && who == [N_LAS, N_LAS]
      ensures old(Valid()) ==> page == old(page)
    {
      for i := 0 to SECTORS_PER_PAGE
        invariant forall j :: 0 <= j < i ==> lsas[j] == N_LAS
      {
        lsas[i] := N_LAS;
      }
      isa := 0;
      who, page := lsas[..], data[..];
    }

    /** Adds a sector behind those already there. */
    method CopyData(lsa: Word, sector: Sector)
      requires Valid() && isa < SECTORS_PER_PAGE
      modifies this, lsas, data
      ensures Valid() && isa == old(isa) + 1
      ensures who == old(who)[old(isa) := lsa]
      ensures page == WithHalf(old(page), old(isa), sector)
    {
      ghost var p0, w0, i0 := page, who, isa;
      for i := 0 to ENTRIES_PER_SECTOR
        invariant who == w0 && page == p0 && isa == i0 && lsas[..] == w0
        invariant forall j :: 0 <= j < ENTRIES_PER_PAGE ==>
                    data[j] == if isa * ENTRIES_PER_SECTOR <= j < isa * ENTRIES_PER_SECTOR + i then sector[j - isa * ENTRIES_PER_SECTOR] else p0[j]
      {
        data[isa * ENTRIES_PER_SECTOR + i] := sector[i];
      }
      lsas[isa] := lsa;
      isa := isa + 1;
      who := w0[i0 := lsa];
      page := data[..];
    }
  }
}
