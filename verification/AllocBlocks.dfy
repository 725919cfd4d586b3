/** The blocks of the power-of-two allocator (tclAlloc.c): buckets, headers and areas, and what the steps of the
    allocator do to them. */
module AllocBlocks {
  import opened Folding
  import opened AllocSpace
  import opened AllocLists

  /** Sizes that depend on the platform: blocks are aligned to 16 bytes or to 8, pointers have 8 bytes or 4. */
  datatype Layout = Layout(wideAlign: bool, widePointers: bool) {
    /** A block's header. */
    function overhead(): nat {
      if wideAlign then 16 else 8
    }

    /** The links of a piece of system memory. */
    function block(): nat {
      if widePointers then 16 else 8
    }

    /** The bucket of the smallest blocks. */
    function First(): nat {
      if wideAlign then 1 else 0
    }

    function Buckets(): nat {
      if wideAlign then 12 else 13
    }

    /** Blocks up to this size come from buckets. */
    function MaxMalloc(): (n: nat)
      ensures n == if wideAlign then 0x4000 else 0x8000
    {
      Powers();
      Pow2(Buckets() + 2)
    }
  }

  lemma Powers()
    ensures Pow2(14) == 0x4000 && Pow2(15) == 0x8000
  {
    Pow2Divides(7, 14);
    Pow2Divides(7, 15);
    assert Pow2(4) == 16;
    assert Pow2(7) == 128 && Pow2(8) == 256;
  }

  ghost function BlocksOf(home: map<int, nat>, b: nat): set<int> {
    set h | h in home && home[h] == b
  }

  /** All buckets in order; `home` says the bucket of each block carved. */
  ghost predicate AllBuckets(nextf: seq<int>, mem: Memory, free: seq<seq<int>>, home: map<int, nat>) {
    |nextf| == |free| && forall u {:trigger Glance(u)} :: Glance(u) ==>
      forall b :: 0 <= b < |free| ==> Bucket(mem, nextf[b], free[b], BlocksOf(home, b), b)
  }

  /** The blocks carved are areas of their buckets' sizes. */
  ghost predicate Carved(l: Layout, mem: Memory, home: map<int, nat>, extent: map<int, int>) {
    forall u {:trigger Look(u)} :: Look(u) ==>
    forall h :: h in home ==> h > 0 && l.First() <= home[h] < l.Buckets() && h in extent && extent[h] == Size(home[h]) && h in mem && mem[h] != InUse(BIG)
  }

  /** The big blocks fill regions. */
  ghost predicate BigAreas(l: Layout, ring: seq<int>, extent: map<int, int>, regions: map<int, int>) {
    forall u {:trigger Look(u)} :: Look(u) ==>
    forall r :: r in ring ==> r > 0 && r in extent && r in regions && extent[r] == regions[r] && extent[r] >= l.block() + l.overhead()
  }

  /** Their headers say so. */
  ghost predicate BigHeaders(l: Layout, mem: Memory, ring: seq<int>) {
    forall u {:trigger Look(u)} :: Look(u) ==>
    forall r :: r in ring ==> r + l.block() in mem && mem[r + l.block()] == InUse(BIG)
  }

  /** There are no other headers, and no area is both a big block and a carved one. */
  ghost predicate Known(l: Layout, mem: Memory, home: map<int, nat>, ring: seq<int>) {
    forall u {:trigger Look(u)} :: Look(u) ==>
    && (forall h :: h in mem ==> if mem[h] == InUse(BIG) then h - l.block() in ring else h in home)
    && (forall r :: r in ring ==> r !in home)
  }

  /** Every header is that of a carved block or of a big block, and these have the sizes they should. */
  ghost predicate Placed(l: Layout, mem: Memory, home: map<int, nat>, ring: seq<int>, extent: map<int, int>, regions: map<int, int>) {
    Carved(l, mem, home, extent) && BigAreas(l, ring, extent, regions) && BigHeaders(l, mem, ring) && Known(l, mem, home, ring)
  }

  // ----- one bucket changes

  lemma BucketPopped(nextf: seq<int>, mem: Memory, free: seq<seq<int>>, home: map<int, nat>, b: nat)
    requires AllBuckets(nextf, mem, free, home) && b < |free| && free[b] != []
    ensures nextf[b] in mem && mem[nextf[b]] == Next(After(free[b], 0)) && nextf[b] in home && home[nextf[b]] == b
    ensures AllBuckets(nextf[b := After(free[b], 0)], mem[nextf[b] := InUse(b)], free[b := free[b][1..]], home)
  {
    assert Glance(0);
    var mem' := mem[nextf[b] := InUse(b)];
    BucketHead(mem, nextf[b], free[b], BlocksOf(home, b), b);
    Popped(mem, nextf[b], free[b], BlocksOf(home, b), b);
    forall c | 0 <= c < |free| && c != b
      ensures Bucket(mem', nextf[c], free[c], BlocksOf(home, c), c)
    {
      Elsewhere(mem, nextf[c], free[c], BlocksOf(home, c), c, mem');
    }
  }

  lemma BucketPushed(nextf: seq<int>, mem: Memory, free: seq<seq<int>>, home: map<int, nat>, b: nat, h: int)
    requires AllBuckets(nextf, mem, free, home) && b < |free| && h in home && home[h] == b && h in mem && mem[h].InUse? && h > 0
    ensures AllBuckets(nextf[b := h], mem[h := Next(nextf[b])], free[b := [h] + free[b]], home)
  {
    assert Glance(0);
    var mem' := mem[h := Next(nextf[b])];
    Pushed(mem, nextf[b], free[b], BlocksOf(home, b), b, h);
    forall c | 0 <= c < |free| && c != b
      ensures Bucket(mem', nextf[c], free[c], BlocksOf(home, c), c)
    {
      Elsewhere(mem, nextf[c], free[c], BlocksOf(home, c), c, mem');
    }
  }

  lemma BucketsElsewhere(nextf: seq<int>, mem: Memory, free: seq<seq<int>>, home: map<int, nat>, mem': Memory)
    requires AllBuckets(nextf, mem, free, home)
    requires forall h :: h in home && h in mem ==> h in mem' && mem'[h] == mem[h]
    ensures AllBuckets(nextf, mem', free, home)
  {
    assert Glance(0);
    forall c | 0 <= c < |free|
      ensures Bucket(mem', nextf[c], free[c], BlocksOf(home, c), c)
    {
      Elsewhere(mem, nextf[c], free[c], BlocksOf(home, c), c, mem');
    }
  }

  /** The list of a new chunk's blocks. */
  ghost function CellList(base: int, size: int, count: nat): (list: seq<int>)
    ensures |list| == count && forall k :: 0 <= k < count ==> list[k] == Cell(base, size, k)
  {
    seq(count, k => Cell(base, size, k))
  }

  function CellAfter(base: int, size: int, count: nat, k: nat): int {
    if k + 1 < count then Cell(base, size, k + 1) else NULL
  }

  /** The first n blocks of a chunk linked to the next. */
  ghost predicate Chained(mem: Memory, base: int, size: int, count: nat, n: nat) {
    forall u {:trigger Look(u)} :: Look(u) ==>
    && (forall k: nat :: k < n ==> Cell(base, size, k) in mem)
    && (forall k: nat {:trigger CellAfter(base, size, count, k)} :: k < n ==> mem[Cell(base, size, k)] == Next(CellAfter(base, size, count, k)))
  }

  lemma CellListIs(base: int, size: int, count: nat)
    requires size > 0
    ensures Distinct(CellList(base, size, count)) && forall h :: h in CellList(base, size, count) <==> h in Cells(base, size, count)
  {
    var list := CellList(base, size, count);
    forall j, k | 0 <= j < k < count
      ensures list[j] != list[k]
    {
      CellsApart(base, size, j, k);
    }
    forall h | h in Cells(base, size, count)
      ensures h in list
    {
      var k :| 0 <= k < count && Cell(base, size, k) == h;
      assert list[k] == h;
    }
  }

  ghost function Homed(home: map<int, nat>, cells: set<int>, b: nat): map<int, nat> {
    home + map c | c in cells :: b
  }

  lemma BlocksHomed(home: map<int, nat>, cells: set<int>, b: nat, c: nat)
    requires cells !! home.Keys
    ensures BlocksOf(Homed(home, cells, b), c) == if c == b then BlocksOf(home, c) + cells else BlocksOf(home, c)
  {}

  /** Headers written at some places only. */
  ghost predicate Written(mem: Memory, mem': Memory, cells: set<int>) {
    forall u {:trigger Look(u)} :: Look(u) ==>
    && (forall h :: h in mem && h !in cells ==> h in mem' && mem'[h] == mem[h])
    && (forall h :: h in mem' ==> h in mem || h in cells)
  }

  lemma WrittenMore(mem: Memory, mem': Memory, base: int, size: int, count: nat, k: nat, header: Header)
    requires Written(mem, mem', Cells(base, size, count)) && k < count
    ensures Written(mem, mem'[Cell(base, size, k) := header], Cells(base, size, count))
  {
    assert Look(0);
    assert Cell(base, size, k) in Cells(base, size, count);
  }

  lemma NewChunk(mem: Memory, head: int, blocks: set<int>, b: nat, mem': Memory, base: int, size: int, count: nat)
    requires Bucket(mem, head, [], blocks, b) && count > 0 && size > 0 && base > 0 && Cells(base, size, count) !! blocks
    requires forall h :: h in blocks && h in mem ==> h in mem' && mem'[h] == mem[h]
    requires Chained(mem', base, size, count, count)
    ensures Bucket(mem', base, CellList(base, size, count), blocks + Cells(base, size, count), b)
  {
    var cells, list := Cells(base, size, count), CellList(base, size, count);
    assert Look(0);
    CellListIs(base, size, count);
    CellsTile(base, size, count);
    assert forall i :: 0 <= i < |list| ==> list[i] == Cell(base, size, i) && list[i] in mem';
    forall i: int {:trigger After(list, i)} | 0 <= i < |list|
      ensures mem'[list[i]] == Next(After(list, i))
    {
      var next := CellAfter(base, size, count, i);
      assert list[i] == Cell(base, size, i) && After(list, i) == next;
    }
    assert list[0] == base;
    Filled(mem, head, blocks, b, mem', list, cells);
  }

  lemma BucketFilled(nextf: seq<int>, mem: Memory, free: seq<seq<int>>, home: map<int, nat>, b: nat, mem': Memory, base: int, size: int, count: nat,
                     list: seq<int>, cells: set<int>)
    requires AllBuckets(nextf, mem, free, home) && b < |free| && free[b] == [] && count > 0 && size > 0 && base > 0
    requires cells == Cells(base, size, count) && list == CellList(base, size, count) && cells !! home.Keys
    requires forall h :: h in home && h in mem ==> h in mem' && mem'[h] == mem[h]
    requires Chained(mem', base, size, count, count)
    ensures AllBuckets(nextf[b := base], mem', free[b := list], Homed(home, cells, b))
  {
    assert Glance(0);
    NewChunk(mem, nextf[b], BlocksOf(home, b), b, mem', base, size, count);
    forall c | 0 <= c < |free|
      ensures Bucket(mem', nextf[b := base][c], free[b := list][c], BlocksOf(Homed(home, cells, b), c), c)
    {
      BlocksHomed(home, cells, b, c);
      if c != b {
        Elsewhere(mem, nextf[c], free[c], BlocksOf(home, c), c, mem');
      }
    }
  }

  // ----- where headers are

  lemma BigHeader(l: Layout, mem: Memory, home: map<int, nat>, ring: seq<int>, extent: map<int, int>, regions: map<int, int>, h: int)
    requires Known(l, mem, home, ring) && BigAreas(l, ring, extent, regions) && h in mem && mem[h] == InUse(BIG)
    ensures var r := h - l.block(); r in ring && r > 0 && r in regions && r in extent && extent[r] == regions[r] && regions[r] >= l.block() + l.overhead()
  {
    assert Look(0);
  }

  lemma BigNotCarved(l: Layout, mem: Memory, home: map<int, nat>, ring: seq<int>, r: int)
    requires Known(l, mem, home, ring) && r in ring
    ensures r !in home
  {
    assert Look(0);
  }

  lemma SmallHeader(l: Layout, mem: Memory, home: map<int, nat>, ring: seq<int>, extent: map<int, int>, h: int)
    requires Known(l, mem, home, ring) && Carved(l, mem, home, extent) && h in mem && mem[h] != InUse(BIG)
    ensures h in home && h > 0 && l.First() <= home[h] < l.Buckets() && h in extent && extent[h] == Size(home[h])
  {
    assert Look(0);
  }

  lemma HomeHeader(l: Layout, mem: Memory, home: map<int, nat>, extent: map<int, int>, h: int)
    requires Carved(l, mem, home, extent) && h in home
    ensures h > 0 && l.First() <= home[h] < l.Buckets() && h in extent && extent[h] == Size(home[h]) && h in mem && mem[h] != InUse(BIG)
  {
    assert Look(0);
  }

  /** New memory holds no header yet. */
  lemma NotInMemory(l: Layout, mem: Memory, home: map<int, nat>, ring: seq<int>, extent: map<int, int>, regions: map<int, int>,
                    inside: map<int, int>, s: int, size: int, x: int)
    requires Placed(l, mem, home, ring, extent, regions) && Space(extent, regions, inside)
    requires NewRegion(regions, s, size) && s <= x < s + size
    ensures x !in mem && x !in home
  {
    NewlyApart(extent, regions, inside, s, size);
    if x in mem && mem[x] == InUse(BIG) {
      BigHeader(l, mem, home, ring, extent, regions, x);
      NewApart(regions, s, size, x - l.block());
    } else if x in mem {
      SmallHeader(l, mem, home, ring, extent, x);
    } else if x in home {
      HomeHeader(l, mem, home, extent, x);
    }
  }

  lemma PlacedHeader(l: Layout, mem: Memory, home: map<int, nat>, ring: seq<int>, extent: map<int, int>, regions: map<int, int>,
                     h: int, header: Header)
    requires Placed(l, mem, home, ring, extent, regions) && h in home && header != InUse(BIG)
    ensures Placed(l, mem[h := header], home, ring, extent, regions)
  {
    var mem' := mem[h := header];
    assert Carved(l, mem', home, extent) by {
      assert Look(0);
    }
    assert BigHeaders(l, mem', ring) && Known(l, mem', home, ring) by {
      HomeHeader(l, mem, home, extent, h);
      BigHeadersStay(l, mem, ring, ring, mem');
      KnownStays(l, mem, home, ring, h, header);
    }
  }

  lemma KnownStays(l: Layout, mem: Memory, home: map<int, nat>, ring: seq<int>, h: int, header: Header)
    requires Known(l, mem, home, ring) && h in home && h in mem && header != InUse(BIG)
    ensures Known(l, mem[h := header], home, ring)
  {
    assert Look(0);
  }

  lemma BigHeadersStay(l: Layout, mem: Memory, ring: seq<int>, ring': seq<int>, mem': Memory)
    requires BigHeaders(l, mem, ring) && forall r :: r in ring' ==> r in ring
    requires forall r :: r in ring' && r + l.block() in mem && mem[r + l.block()] == InUse(BIG) ==> r + l.block() in mem' && mem'[r + l.block()] == InUse(BIG)
    ensures BigHeaders(l, mem', ring')
  {
    assert Look(0);
  }

  lemma PlacedChunk(l: Layout, mem: Memory, home: map<int, nat>, ring: seq<int>, extent: map<int, int>, regions: map<int, int>,
                    b: nat, cells: set<int>, mem': Memory, extent': map<int, int>, regions': map<int, int>)
    requires Placed(l, mem, home, ring, extent, regions) && l.First() <= b < l.Buckets()
    requires cells !! extent.Keys && (forall c :: c in cells ==> c > 0 && c !in mem && c in mem' && mem'[c].Next?)
    requires forall h :: h in mem' ==> h in mem || h in cells
    requires forall h :: h in mem ==> h in mem' && mem'[h] == mem[h]
    requires Extended(extent, extent', cells, Size(b)) && (forall r :: r in regions ==> r in regions' && regions'[r] == regions[r])
    ensures Placed(l, mem', Homed(home, cells, b), ring, extent', regions')
  {
    assert Carved(l, mem', Homed(home, cells, b), extent') && BigAreas(l, ring, extent', regions') by {
      assert Look(0);
    }
    assert forall r :: r in ring ==> r !in cells by {
      assert Look(0);
    }
    assert BigHeaders(l, mem', ring) by {
      assert Look(0);
    }
    assert Known(l, mem', Homed(home, cells, b), ring) by {
      assert Look(0);
    }
  }

  lemma PlacedBig(l: Layout, mem: Memory, home: map<int, nat>, ring: seq<int>, extent: map<int, int>, regions: map<int, int>,
                  s: int, size: int, h: int)
    requires Placed(l, mem, home, ring, extent, regions) && s > 0 && size >= l.block() + l.overhead() && h == s + l.block()
    requires s !in extent && s !in regions && h !in mem && s !in home
    ensures Placed(l, mem[h := InUse(BIG)], home, [s] + ring, extent[s := size], regions[s := size])
  {
    var mem', ring' := mem[h := InUse(BIG)], [s] + ring;
    assert forall r :: r in ring' <==> r == s || r in ring;
    assert Carved(l, mem', home, extent[s := size]) && BigAreas(l, ring', extent[s := size], regions[s := size]) by {
      assert Look(0);
    }
    assert BigHeaders(l, mem', ring') by {
      assert Look(0);
    }
    assert Known(l, mem', home, ring') by {
      assert Look(0);
    }
  }

  lemma PlacedWithoutBig(l: Layout, mem: Memory, home: map<int, nat>, ring: seq<int>, extent: map<int, int>, regions: map<int, int>,
                         i: nat, r: int, ring': seq<int>)
    requires Placed(l, mem, home, ring, extent, regions) && Distinct(ring) && i < |ring| && r == ring[i] && ring' == ring[..i] + ring[i + 1..]
    ensures Placed(l, mem - {r + l.block()}, home, ring', extent - {r}, regions - {r})
  {
    RingWithout(ring, i);
    var mem' := mem - {r + l.block()};
    assert r in ring;
    assert r !in home && r + l.block() in mem && mem[r + l.block()] == InUse(BIG) by {
      assert Look(0);
    }
    assert Carved(l, mem', home, extent - {r}) by {
      assert Look(0);
    }
    BigAreasStay(l, ring, ring', extent, regions, r);
    BigHeadersStay(l, mem, ring, ring', mem');
    assert Known(l, mem', home, ring') by {
      assert Look(0);
    }
  }

  lemma BigAreasStay(l: Layout, ring: seq<int>, ring': seq<int>, extent: map<int, int>, regions: map<int, int>, r: int)
    requires BigAreas(l, ring, extent, regions) && forall q :: q in ring' ==> q in ring && q != r
    ensures BigAreas(l, ring', extent - {r}, regions - {r})
  {
    assert Look(0);
  }

  lemma RingWithout(ring: seq<int>, i: nat)
    requires Distinct(ring) && i < |ring|
    ensures forall q :: q in ring[..i] + ring[i + 1..] <==> q in ring && q != ring[i]
  {
    var ring' := ring[..i] + ring[i + 1..];
    forall q | q in ring'
      ensures q in ring && q != ring[i]
    {
      var k :| 0 <= k < |ring'| && ring'[k] == q;
      assert ring'[k] == ring[if k < i then k else k + 1];
    }
    forall q | q in ring && q != ring[i]
      ensures q in ring'
    {
      var k :| 0 <= k < |ring| && ring[k] == q;
      assert ring'[if k < i then k else k - 1] == q;
    }
  }
}
