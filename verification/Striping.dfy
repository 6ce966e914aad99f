/**
 Virtual blocks: the pages of one are spread over physical blocks, one channel after the other.
 */
module Striping {
  import opened Division

  const SECTORS := 2

  /**
   Channels of the device, physical blocks in a virtual block, rows of blocks that each of those
   is taken from, and pages in a virtual block.
   */
  datatype Stripes = Stripes(channels: int, blocks: int, rows: int, pages: int) {
    /** What the device and the start of the program make sure of. */
    predicate Valid() { 1 <= channels && 1 <= blocks <= pages && 2 <= rows }

    /** The channels share the blocks evenly, and the blocks the pages. */
    predicate Even() { Valid() && pages % blocks == 0 && (blocks % channels == 0 || blocks == 1) }

    /** Pages of a physical block. */
    function Width(): (w: int)
      requires Valid()
      ensures w >= 1
    {
      Split(pages, blocks);
      pages / blocks
    }

    /** The physical page of a page of a virtual block. */
    function Place(block: int, page: int): int
      requires Valid()
    {
      var channel := Low(page, channels);
      var prefix := Num(channel, blocks / channels, High(Low(page, blocks), channels));
      Num(Num(prefix, rows, block), Width(), High(page, blocks))
    }

    predicate Virtual(block: int, page: int) { 0 <= block < rows && 0 <= page < pages }

    predicate Physical(p: int)
      requires Valid()
    {
      0 <= p < Times(Times(blocks, rows), Width())
    }

    /** The channels that matter, and the blocks of each. */
    function Lanes(): int { if blocks == 1 then 1 else channels }

    function Depth(): (d: int)
      requires Even()
      ensures d >= 1 && Lanes() >= 1 && blocks == Times(d, Lanes()) == Times(Lanes(), d) && pages == Times(Width(), blocks)
    {
      Split(blocks, Lanes());
      Split(pages, blocks);
      blocks / Lanes()
    }

    /** A single block has no use for channels. */
    lemma PlaceLanes(block: int, page: int)
      requires Even() && page >= 0
      ensures Place(block, page) ==
              Num(Num(Num(Low(page, Lanes()), Depth(), High(Low(page, blocks), Lanes())), rows, block), Width(), High(page, blocks))
    {
      if blocks == 1 && channels > 1 {
        assert blocks / channels == 0 && page % blocks == 0;
        assert (page % blocks) / channels == 0 && page % Lanes() == 0;
      }
    }

    /** The block and page that a physical page belongs to. */
    function Origin(p: int): (int, int)
      requires Even()
    {
      var physical := High(p, Width());
      var prefix := High(physical, rows);
      (Low(physical, rows), Num(Low(p, Width()), blocks, Num(Low(prefix, Depth()), Lanes(), High(prefix, Depth()))))
    }

    /** The place of a page is on the device, and tells the page. */
    lemma PlaceOrigin(block: int, page: int)
      requires Even() && Virtual(block, page)
      ensures Physical(Place(block, page)) && Origin(Place(block, page)) == (block, page)
    {
      hide Num, High, Low, Times, Width, Depth, Lanes, Place;
      PlaceLanes(block, page);
      var x := Low(page, blocks);
      Parts(page, Width(), blocks);
      Nested(page, Depth(), Lanes());
      Parts(x, Depth(), Lanes());
      Digits(Low(x, Lanes()), High(x, Lanes()), Lanes(), Depth());
      var prefix := Num(Low(x, Lanes()), Depth(), High(x, Lanes()));
      Digits(prefix, block, blocks, rows);
      Digits(Num(prefix, rows, block), High(page, blocks), Times(blocks, rows), Width());
    }

    /** Every physical page is the place of a page. */
    lemma OriginPlace(p: int)
      requires Even() && Physical(p)
      ensures var (block, page) := Origin(p); Virtual(block, page) && Place(block, page) == p
    {
      hide Num, High, Low, Times, Width, Depth, Lanes, Place;
      Parts(p, Times(blocks, rows), Width());
      var physical := High(p, Width());
      Parts(physical, blocks, rows);
      var prefix := High(physical, rows);
      Parts(prefix, Lanes(), Depth());
      Digits(Low(prefix, Depth()), High(prefix, Depth()), Depth(), Lanes());
      var x := Num(Low(prefix, Depth()), Lanes(), High(prefix, Depth()));
      Digits(Low(p, Width()), x, Width(), blocks);
      var page := Num(Low(p, Width()), blocks, x);
      Nested(page, Depth(), Lanes());
      PlaceLanes(Low(physical, rows), page);
    }

    /** The pages that a virtual block has in one physical block lie there in their order. */
    lemma InSequence(block: int, p: int, q: int)
      requires Even() && Virtual(block, p) && Virtual(block, q) && High(Place(block, p), Width()) == High(Place(block, q), Width())
      ensures Low(Place(block, p), Width()) < Low(Place(block, q), Width()) <==> p < q
    {
      hide Num, High, Low, Place, Width, Depth, Lanes, Times;
      PlaceOrigin(block, p);
      PlaceOrigin(block, q);
      var prefix := High(High(Place(block, p), Width()), rows);
      Ahead(Low(Place(block, p), Width()), Low(Place(block, q), Width()), blocks, Num(Low(prefix, Depth()), Lanes(), High(prefix, Depth())));
    }

    ghost predicate Apart() requires Valid() {
      forall b, p, c, q :: Virtual(b, p) && Virtual(c, q) && (b, p) != (c, q) ==> Place(b, p) != Place(c, q)
    }

    /** Pages keep apart exactly if the geometry is even. */
    lemma ApartIff()
      requires Valid()
      ensures Apart() <==> Even()
    {
      if Even() {
        forall b, p, c, q | Virtual(b, p) && Virtual(c, q) && (b, p) != (c, q) ensures Place(b, p) != Place(c, q) {
          PlaceOrigin(b, p);
          PlaceOrigin(c, q);
        }
      } else if blocks % channels != 0 && blocks != 1 {
        ChannelsCollide();
      } else {
        RowsCollide();
      }
    }

    lemma Together(b: int, p: int, c: int, q: int)
      requires Valid() && Virtual(b, p) && Virtual(c, q) && (b, p) != (c, q) && Place(b, p) == Place(c, q)
      ensures !Apart()
    {
    }

    /** Where a page of the first row of a block falls. */
    lemma FirstRow(page: int, channel: int, turn: int)
      requires Valid() && 0 <= page < blocks && 0 <= channel < channels && page == turn * channels + channel
      ensures Place(0, page) == Times(Times(Num(channel, blocks / channels, turn), rows), Width())
    {
      QuotientIs(page, blocks, 0, page);
      QuotientIs(page, channels, turn, channel);
    }

    /** Two pages of the first row of a block fall together. */
    lemma ChannelsCollide()
      requires Valid() && blocks % channels != 0 && blocks != 1
      ensures !Apart()
    {
      hide Apart, Width, Place;
      var d := blocks / channels;
      Split(blocks, channels);
      FirstRow(1, 1, 0);
      if d == 0 {
        FirstRow(0, 0, 0);
        assert Num(1, 0, 0) == Num(0, 0, 0);
        Together(0, 0, 0, 1);
      } else {
        Product(d - 1, channels);
        Successor(d - 1, channels);
        FirstRow(d * channels, 0, d);
        assert Num(1, d, 0) == Num(0, d, d);
        Together(0, 1, 0, d * channels);
      }
    }

    /** A page of the last, incomplete row falls on the first page of the next block. */
    lemma RowsCollide()
      requires Valid() && pages % blocks != 0 && (blocks % channels == 0 || blocks == 1)
      ensures !Apart()
    {
      var w, d := Width(), blocks / channels;
      Split(pages, blocks);
      Split(blocks, channels);
      var page := w * blocks;
      QuotientIs(page, blocks, w, 0);
      assert page == (w * d) * channels;
      QuotientIs(page, channels, w * d, 0);
      QuotientIs(0, blocks, 0, 0);
      QuotientIs(0, channels, 0, 0);
      assert Place(0, page) == w;
      assert Place(1, 0) == w;
      assert Virtual(0, page) && Virtual(1, 0);
    }

    /** Sector address a is that of a page of the first row of a virtual block. */
    ghost predicate InRow(block: int, a: int)
      requires Valid()
    {
      exists page :: 0 <= page < blocks && a == Place(block, page) * SECTORS
    }

    /** The addresses of the pages of the first row, each once. */
    ghost predicate Row(block: int, addresses: seq<int>)
      requires Valid()
    {
      && |addresses| == blocks
      && (forall i, j :: 0 <= i < j < |addresses| ==> addresses[i] != addresses[j])
      && (forall a :: a in addresses <==> InRow(block, a))
    }

    /** The addresses to erase for a virtual block: one in each of its physical blocks. */
    method EraseAddresses(block: int) returns (addresses: seq<int>)
      requires Valid()
      ensures |addresses| == blocks && forall b :: 0 <= b < blocks ==> addresses[b] == First(block, b) * SECTORS
      ensures Even() && 0 <= block < rows ==> Row(block, addresses)
    {
      addresses := [];
      for b := 0 to blocks
        invariant |addresses| == b && forall a :: 0 <= a < b ==> addresses[a] == First(block, a) * SECTORS
      {
        var physical := b * rows + block;
        addresses := addresses + [physical * Width() * SECTORS];
      }
      if Even() && 0 <= block < rows {
        FirstsAreRow(block, addresses);
      }
    }

    /** The first page of the b-th physical block of a virtual block. */
    function First(block: int, b: int): int
      requires Valid()
    {
      (b * rows + block) * Width()
    }

    /** The page of the first row that is in the b-th physical block. */
    function Column(b: int): int
      requires Even()
    {
      Num(Low(b, Depth()), Lanes(), High(b, Depth()))
    }

    lemma FirstIs(block: int, b: int)
      requires Valid()
      ensures High(First(block, b), Width()) == Num(b, rows, block) && Low(First(block, b), Width()) == 0
      ensures First(block, b) == Num(Num(b, rows, block), Width(), 0)
    {
      QuotientIs(First(block, b), Width(), b * rows + block, 0);
    }

    /** The first page of a physical block is the place of a page of the first row. */
    lemma FirstIsPlace(block: int, b: int)
      requires Even() && 0 <= block < rows && 0 <= b < blocks
      ensures 0 <= Column(b) < blocks && Place(block, Column(b)) == First(block, b)
    {
      hide Num, High, Low, Times, Width, Depth, Lanes, Place, First;
      FirstIs(block, b);
      Digits(b, block, blocks, rows);
      Digits(Num(b, rows, block), 0, Times(blocks, rows), Width());
      OriginPlace(First(block, b));
      Parts(b, Lanes(), Depth());
      Digits(Low(b, Depth()), High(b, Depth()), Depth(), Lanes());
      NoHigh(Column(b), blocks);
    }

    /** And the place of every page of the first row is the first page of a physical block. */
    lemma PlaceIsFirst(block: int, page: int) returns (b: int)
      requires Even() && 0 <= block < rows && 0 <= page < blocks
      ensures 0 <= b < blocks && Place(block, page) == First(block, b) && Column(b) == page
    {
      hide Num, High, Low, Times, Width, Depth, Lanes, Place, First;
      PlaceLanes(block, page);
      Small(page, blocks);
      Parts(page, Depth(), Lanes());
      b := Num(Low(page, Lanes()), Depth(), High(page, Lanes()));
      Digits(Low(page, Lanes()), High(page, Lanes()), Lanes(), Depth());
      FirstIs(block, b);
    }

    lemma FirstsAreRow(block: int, addresses: seq<int>)
      requires Even() && 0 <= block < rows && |addresses| == blocks
      requires forall b :: 0 <= b < blocks ==> addresses[b] == First(block, b) * SECTORS
      ensures Row(block, addresses)
    {
      hide Num, High, Low, Times, Width, Depth, Lanes, Place, First, Column;
      forall i, j | 0 <= i < j < blocks ensures addresses[i] != addresses[j] {
        FirstIs(block, i);
        FirstIs(block, j);
        Digits(i, block, blocks, rows);
        Digits(j, block, blocks, rows);
      }
      forall a ensures a in addresses <==> InRow(block, a) {
        if a in addresses {
          var b :| 0 <= b < blocks && a == addresses[b];
          FirstIsPlace(block, b);
        }
        if page :| 0 <= page < blocks && a == Place(block, page) * SECTORS {
          var b := PlaceIsFirst(block, page);
          assert addresses[b] == a;
        }
      }
    }

    /** How the start of the program fits physical blocks of npages pages into a virtual block. */
    predicate Fitted(npages: int) { 1 <= npages <= pages && blocks == pages / npages }

    /** Page p is in one of the blocks of npages pages that the device erases for the addresses. */
    predicate Erased(addresses: seq<int>, p: int, npages: int)
      requires npages >= 1
    {
      exists i :: 0 <= i < |addresses| && High(High(addresses[i], SECTORS), npages) == High(p, npages)
    }

    /** Erasing a virtual block covers exactly the physical pages that its programs can reach. */
    ghost predicate ErasesItsPages(npages: int)
      requires Even() && npages >= 1
    {
      forall block, addresses, p :: 0 <= block < rows && Row(block, addresses) && Physical(p) ==>
                                      (Erased(addresses, p, npages) <==> Origin(p).0 == block)
    }

    /** It does so exactly if the physical blocks fill up the virtual block. */
    lemma ErasesIff(npages: int)
      requires Even() && Fitted(npages)
      ensures ErasesItsPages(npages) <==> Times(npages, blocks) == pages
    {
      hide Erased, Origin, Row;
      if Times(npages, blocks) == pages {
        QuotientIs(pages, blocks, npages, 0);
        forall block, addresses, p | 0 <= block < rows && Row(block, addresses) && Physical(p)
          ensures Erased(addresses, p, npages) <==> Origin(p).0 == block
        {
          FullErases(block, addresses, p);
        }
      } else {
        var addresses := Firsts(0);
        RestStays(npages, addresses);
      }
    }

    ghost function Firsts(block: int): (addresses: seq<int>)
      requires Even() && 0 <= block < rows
      ensures Row(block, addresses)
    {
      var addresses := seq(blocks, b => First(block, b) * SECTORS);
      FirstsAreRow(block, addresses);
      addresses
    }

    /** The page of an address of the first row. */
    lemma RowAddress(block: int, addresses: seq<int>, i: int) returns (b: int)
      requires Even() && 0 <= block < rows && Row(block, addresses) && 0 <= i < |addresses|
      ensures 0 <= b < blocks && High(addresses[i], SECTORS) == First(block, b)
    {
      assert addresses[i] in addresses;
      assert InRow(block, addresses[i]);
      var page :| 0 <= page < blocks && addresses[i] == Place(block, page) * SECTORS;
      b := PlaceIsFirst(block, page);
      hide Place, First;
      QuotientIs(addresses[i], SECTORS, First(block, b), 0);
    }

    lemma AddressOf(block: int, addresses: seq<int>, b: int) returns (i: int)
      requires Even() && 0 <= block < rows && Row(block, addresses) && 0 <= b < blocks
      ensures 0 <= i < |addresses| && High(addresses[i], SECTORS) == First(block, b)
    {
      hide Place, First, Column;
      FirstIsPlace(block, b);
      var a := First(block, b) * SECTORS;
      assert InRow(block, a);
      assert a in addresses;
      i :| 0 <= i < |addresses| && addresses[i] == a;
      QuotientIs(a, SECTORS, First(block, b), 0);
    }

    lemma FullErases(block: int, addresses: seq<int>, p: int)
      requires Even() && 0 <= block < rows && Row(block, addresses) && Physical(p)
      ensures Erased(addresses, p, Width()) <==> Origin(p).0 == block
    {
      hide Width, Depth, Lanes, First, High, Low, Num, Times, Row;
      var w := Width();
      var physical := High(p, w);
      Parts(p, Times(blocks, rows), w);
      Parts(physical, blocks, rows);
      if i :| 0 <= i < |addresses| && High(High(addresses[i], SECTORS), w) == physical {
        var b := RowAddress(block, addresses, i);
        FirstIs(block, b);
        Digits(b, block, blocks, rows);
      }
      var b := High(physical, rows);
      var i := AddressOf(block, addresses, b);
      FirstIs(block, b);
    }

    /** The first page behind the first physical block belongs to a virtual block but is not erased with it. */
    lemma RestStays(npages: int, addresses: seq<int>)
      requires Even() && Fitted(npages) && Times(npages, blocks) != pages && Row(0, addresses)
      ensures Physical(npages) && Origin(npages).0 == 0 && !Erased(addresses, npages, npages)
    {
      hide Row;
      var w := Width();
      Split(pages, npages);
      Split(pages, blocks);
      if w <= npages {
        Monotone(w, npages, blocks);
        assert false;
      }
      hide Width, Depth;
      Monotone(1, Times(blocks, rows), w) by {
        Monotone(1, blocks, rows);
      }
      QuotientIs(npages, w, 0, npages);
      QuotientIs(npages, npages, 1, 0);
      forall i | 0 <= i < |addresses| ensures High(High(addresses[i], SECTORS), npages) != 1 {
        var b := RowAddress(0, addresses, i);
        if b > 0 {
          Monotone(1, b, rows);
          Monotone(2, b * rows, w);
          Split(First(0, b), npages);
        }
      }
    }
  }

  lemma Small(a: int, b: int)
    requires 0 <= a < b
    ensures Low(a, b) == a && High(a, b) == 0
  {
    QuotientIs(a, b, 0, a);
  }

  /** A number without a high digit is its low digit. */
  lemma NoHigh(a: int, b: int)
    ensures Num(0, b, a) == a
  {
  }

  // Numbers of two digits

  function Num(high: int, base: int, low: int): int { high * base + low }

  function High(a: int, base: int): int
    requires base != 0
  {
    a / base
  }

  function Low(a: int, base: int): int
    requires base != 0
  {
    a % base
  }

  function Times(a: int, b: int): int { a * b }

  lemma Ahead(a: int, b: int, base: int, low: int)
    requires base >= 1
    ensures Num(a, base, low) < Num(b, base, low) <==> a < b
  {
    if a < b {
      Factor(a, b, base);
    } else {
      Monotone(b, a, base);
    }
  }

  /** A number below m * b has digits below m and b, which make it up. */
  lemma Parts(a: int, m: int, b: int)
    requires 0 <= a < Times(m, b) && b >= 1
    ensures 0 <= High(a, b) < m && 0 <= Low(a, b) < b && Num(High(a, b), b, Low(a, b)) == a
  {
    Split(a, b);
    if m <= a / b {
      if m < a / b {
        Factor(m, a / b, b);
      }
      assert false;
    }
  }

  /** Two digits make a number and can be told from it. */
  lemma Digits(q: int, r: int, m: int, b: int)
    requires 0 <= q < m && 0 <= r < b
    ensures var a := Num(q, b, r); 0 <= a < Times(m, b) && High(a, b) == q && Low(a, b) == r
  {
    Factor(q, m, b);
    Product(q, b);
    QuotientIs(q * b + r, b, q, r);
  }

  /** A remainder by a multiple has the same remainder. */
  lemma Nested(a: int, d: int, c: int)
    requires a >= 0 && d >= 1 && c >= 1
    ensures Times(d, c) >= 1 && Low(Low(a, Times(d, c)), c) == Low(a, c)
  {
    Split(a, d * c);
    var y := a % (d * c);
    Split(y, c);
    assert a == ((a / (d * c)) * d + y / c) * c + y % c;
    QuotientIs(a, c, (a / (d * c)) * d + y / c, y % c);
  }
}
