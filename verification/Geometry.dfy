/**
 The sizes and the address layout of the flash translation layer: how many blocks each
 region has, where each region starts, and how a physical sector address splits into a
 block, a page and a half of a page.
 */
module Geometry {
  import opened Division

  /** A 32-bit word; pages and sectors are arrays of these. */
  type Word = w: int | 0 <= w < 0x1_0000_0000

  /** What an erased word reads as. */
  const ONES: Word := 0xFFFF_FFFF

  // Independent parameters
  const BLOCKS_DELTA := 64
  const BLOCKS_FULL := 1
  const BLOCKS_DATA := 1536
  const PAGES_PER_BLOCK := 512
  const PAGE_SIZE := 8192
  const SECTOR_SIZE := 4096
  const MAX_WCNT := 2048
  const THRESHOLD_GC := 1400

  // Dependent parameters; DependentParameters says how they follow from the others
  const BLOCKS_TOTAL := 1604
  const SECTORS_PER_PAGE := 2
  const SECTORS_PER_BLOCK := 1024
  const ENTRIES_PER_PAGE := 2048
  const ENTRIES_PER_SECTOR := 1024
  const ENTRIES_PER_BLOCK := 1048576
  const N_LAS := 1048575
  const N_PAS := 1642496
  const N_DELTA_PAIR := 1023
  const THRESHOLD_DELTA_WB := 62
  const MAX_GCPROG := 32768
  /** How many blocks must be ready before a flush. */
  const RESERVE := 36
  /** Live sectors a minimum-count victim can hold once THRESHOLD_GC blocks are in use. */
  const VICTIM_MAX := 748
  /** Pages of the delta checkpoint region. */
  const DELTA_PAGES := 32768

  lemma DependentParameters()
    ensures BLOCKS_TOTAL == BLOCKS_DELTA + 2 * (BLOCKS_FULL + 1) + BLOCKS_DATA
    ensures SECTORS_PER_PAGE == PAGE_SIZE / SECTOR_SIZE
    ensures SECTORS_PER_BLOCK == PAGES_PER_BLOCK * SECTORS_PER_PAGE
    ensures ENTRIES_PER_PAGE == PAGE_SIZE / 4 && ENTRIES_PER_SECTOR == SECTOR_SIZE / 4
    ensures ENTRIES_PER_BLOCK == PAGES_PER_BLOCK * ENTRIES_PER_PAGE
    ensures N_LAS == BLOCKS_FULL * PAGES_PER_BLOCK * ENTRIES_PER_PAGE - 1
    ensures N_PAS == BLOCKS_TOTAL * PAGES_PER_BLOCK * SECTORS_PER_PAGE
    ensures N_DELTA_PAIR == ENTRIES_PER_PAGE / 2 - 1
    ensures THRESHOLD_DELTA_WB == BLOCKS_DELTA - (MAX_WCNT / (N_DELTA_PAIR * PAGES_PER_BLOCK) + 2)
    ensures MAX_GCPROG == MAX_WCNT * 16 && VICTIM_MAX == N_LAS / THRESHOLD_GC
    ensures DELTA_PAGES == BLOCKS_DELTA * PAGES_PER_BLOCK
    ensures PBA_FIRST_FULL == BLOCKS_DELTA && PBA_FIRST_FULL_COMMIT == PBA_FIRST_FULL + BLOCKS_FULL
    ensures PBA_SECOND_FULL == PBA_FIRST_FULL_COMMIT + 1 && PBA_SECOND_FULL_COMMIT == PBA_SECOND_FULL + BLOCKS_FULL
    ensures PBA_DATA == PBA_SECOND_FULL_COMMIT + 1 && OFFSET_PAS == OFFSET_LAS + N_DELTA_PAIR
  {
  }

  // Block layout
  const PBA_DELTA := 0
  const PBA_FIRST_FULL := 64
  const PBA_FIRST_FULL_COMMIT := 65
  const PBA_SECOND_FULL := 66
  const PBA_SECOND_FULL_COMMIT := 67
  const PBA_DATA := 68
  /** Blocks of the device; the emulator has more than the layer uses. */
  const NUM_BLOCKS := 2048

  // Layout of a delta checkpoint page
  const OFFSET_COMMIT := 0
  const OFFSET_LAS := 2
  const OFFSET_PAS := 1025
  const FLAG_COMMITTED: Word := 0
  const FLAG_TENTATIVE: Word := 1

  type Sector = s: seq<Word> | |s| == ENTRIES_PER_SECTOR witness seq(ENTRIES_PER_SECTOR, _ => 0)
  type Page = s: seq<Word> | |s| == ENTRIES_PER_PAGE witness seq(ENTRIES_PER_PAGE, _ => 0)

  /** The block, page and half-page of a physical sector address. */
  function Pba(psa: int): int { psa / SECTORS_PER_BLOCK }
  function Ipa(psa: int): int { psa % SECTORS_PER_BLOCK / SECTORS_PER_PAGE }
  function Isa(psa: int): int { psa % SECTORS_PER_PAGE }
  function Psa(pba: int, ipa: int, isa: int): int { (pba * PAGES_PER_BLOCK + ipa) * SECTORS_PER_PAGE + isa }

  /** Splitting an address and putting it together again are inverse to each other. */
  lemma PsaRoundTrip(pba: int, ipa: int, isa: int)
    requires 0 <= ipa < PAGES_PER_BLOCK && 0 <= isa < SECTORS_PER_PAGE
    ensures Pba(Psa(pba, ipa, isa)) == pba
    ensures Ipa(Psa(pba, ipa, isa)) == ipa
    ensures Isa(Psa(pba, ipa, isa)) == isa
  {
    var x, r := Psa(pba, ipa, isa), ipa * SECTORS_PER_PAGE + isa;
    assert x == pba * SECTORS_PER_BLOCK + r;
    QuotientIs(x, SECTORS_PER_BLOCK, pba, r);
    QuotientIs(r, SECTORS_PER_PAGE, ipa, isa);
    QuotientIs(x, SECTORS_PER_PAGE, pba * PAGES_PER_BLOCK + ipa, isa);
  }

  lemma PsaSplit(psa: int)
    ensures 0 <= Ipa(psa) < PAGES_PER_BLOCK && 0 <= Isa(psa) < SECTORS_PER_PAGE
    ensures psa == Psa(Pba(psa), Ipa(psa), Isa(psa))
  {
    var q, r := psa / SECTORS_PER_BLOCK, psa % SECTORS_PER_BLOCK;
    var i, j := r / SECTORS_PER_PAGE, r % SECTORS_PER_PAGE;
    assert psa == q * SECTORS_PER_BLOCK + r && r == i * SECTORS_PER_PAGE + j;
    QuotientIs(psa, SECTORS_PER_PAGE, q * PAGES_PER_BLOCK + i, j);
  }

  /** Where entry x of a buffer of whole blocks lies: its block, page and word. */
  function EntryBlock(x: int): int { x / ENTRIES_PER_BLOCK }
  function EntryPage(x: int): int { x / ENTRIES_PER_PAGE % PAGES_PER_BLOCK }
  function EntryWord(x: int): int { x % ENTRIES_PER_PAGE }

  lemma EntrySplit(x: int)
    requires 0 <= x
    ensures 0 <= EntryBlock(x) && 0 <= EntryPage(x) < PAGES_PER_BLOCK && 0 <= EntryWord(x) < ENTRIES_PER_PAGE
    ensures x == EntryBlock(x) * ENTRIES_PER_BLOCK + EntryPage(x) * ENTRIES_PER_PAGE + EntryWord(x)
  {
    var q, w := x / ENTRIES_PER_PAGE, x % ENTRIES_PER_PAGE;
    var b, p := q / PAGES_PER_BLOCK, q % PAGES_PER_BLOCK;
    assert x == q * ENTRIES_PER_PAGE + w && q == b * PAGES_PER_BLOCK + p;
    QuotientIs(x, ENTRIES_PER_BLOCK, b, p * ENTRIES_PER_PAGE + w);
  }

  /** The half of a page that a sector occupies. */
  function Half(page: Page, isa: int): Sector
    requires 0 <= isa < SECTORS_PER_PAGE
  {
    if isa == 0 then page[..ENTRIES_PER_SECTOR] else page[ENTRIES_PER_SECTOR..]
  }
}
