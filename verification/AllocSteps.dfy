/** The state of the power-of-two allocator (tclAlloc.c) and what each step does to it. */
module AllocSteps {
  import opened Folding
  import opened AllocSpace
  import opened AllocLists
  import opened AllocBlocks

  /** What is known of the memory besides what the program stores: the free blocks of each bucket in order, the bucket
      of each carved block, how many were carved, the big blocks in ring order, the areas of blocks and of system
      memory. */
  datatype Books = Books(
    free: seq<seq<int>>,
    home: map<int, nat>,
    carved: seq<nat>,
    ring: seq<int>,
    extent: map<int, int>,
    regions: map<int, int>,
    inside: map<int, int>)

  /** The blocks of a chunk. */
  function PerChunk(l: Layout, b: nat): (n: nat)
    requires b < l.Buckets()
    ensures n >= 1
  {
    Pow2(l.Buckets() - 1 - b)
  }

  /** They fill it. */
  lemma ChunkCount(l: Layout, b: nat)
    requires b < l.Buckets()
    ensures l.MaxMalloc() / Size(b) == PerChunk(l, b) && Size(b) * PerChunk(l, b) == l.MaxMalloc()
  {
    var m, n := b + 3, l.Buckets() + 2;
    Pow2Divides(m, n);
    Quotient(Pow2(m), Pow2(n - m));
  }

  lemma Quotient(a: nat, b: nat)
    requires a > 0
    ensures a * b / a == b
  {
    var q, r := a * b / a, a * b % a;
    assert a * q + r == a * b;
    assert (b - q) * a == r;
    if q < b {
      MulAtLeast(b - q, a);
    } else if b < q {
      MulAtLeast(q - b, a);
    }
  }

  /** New memory that holds the links of a chunk and its blocks. */
  ghost predicate ChunkArea(l: Layout, regions: map<int, int>, s: int, b: nat, size: nat, count: nat, total: nat) {
    forall u {:trigger Look(u)} :: Look(u) ==>
      size == Size(b) && count > 0 && total == l.block() + size * count && NewRegion(regions, s, total)
  }

  lemma AreaPositive(l: Layout, regions: map<int, int>, s: int, b: nat, size: nat, count: nat, total: nat)
    requires ChunkArea(l, regions, s, b, size, count, total)
    ensures s > 0
  {
    assert Look(0);
  }

  /** The blocks of a chunk linked, and nothing else written. */
  ghost predicate Strung(mem: Memory, mem': Memory, base: int, size: nat, count: nat) {
    forall u {:trigger Glance(u)} :: Glance(u) ==> Chained(mem', base, size, count, count) && Written(mem, mem', Cells(base, size, count))
  }

  /** The blocks of a chunk in new memory are new. */
  lemma ChunkFresh(l: Layout, mem: Memory, k: Books, s: int, b: nat, size: nat, count: nat, cells: set<int>, total: nat)
    requires Placed(l, mem, k.home, k.ring, k.extent, k.regions) && Space(k.extent, k.regions, k.inside)
    requires cells == Cells(s + l.block(), size, count) && ChunkArea(l, k.regions, s, b, size, count, total)
    ensures forall c :: c in cells ==> c > 0 && c !in mem && c !in k.home
    ensures Tiling(cells, size, s + l.block(), s + total)
  {
    assert Look(0);
    CellsTile(s + l.block(), size, count);
    forall c | c in cells
      ensures c !in mem && c !in k.home
    {
      NotInMemory(l, mem, k.home, k.ring, k.extent, k.regions, k.inside, s, total, c);
    }
  }

  /** The buckets after a chunk has joined one. */
  lemma ChunkInBucket(l: Layout, nextf: seq<int>, mem: Memory, k: Books, s: int, b: nat, size: nat, count: nat, mem': Memory, cells: set<int>, total: nat)
    requires AllBuckets(nextf, mem, k.free, k.home) && b < |k.free| && nextf[b] == NULL && s > 0
    requires cells == Cells(s + l.block(), size, count) && Strung(mem, mem', s + l.block(), size, count)
    requires ChunkArea(l, k.regions, s, b, size, count, total) && forall c :: c in cells ==> c > 0 && c !in mem && c !in k.home
    ensures AllBuckets(nextf[b := s + l.block()], mem', k.free[b := CellList(s + l.block(), size, count)], Homed(k.home, cells, b))
  {
    var base := s + l.block();
    assert k.free[b] == [] by {
      assert Glance(0);
      BucketHead(mem, nextf[b], k.free[b], BlocksOf(k.home, b), b);
    }
    assert size > 0 && count > 0 by {
      assert Look(0);
    }
    assert Chained(mem', base, size, count, count) && Written(mem, mem', cells) by {
      assert Glance(0);
    }
    assert forall h :: h in mem ==> h in mem' && mem'[h] == mem[h] by {
      assert Look(0);
    }
    BucketFilled(nextf, mem, k.free, k.home, b, mem', base, size, count, CellList(base, size, count), cells);
  }

  /** The areas after a chunk has joined. */
  lemma ChunkInSpace(l: Layout, mem: Memory, k: Books, s: int, b: nat, size: nat, count: nat, mem': Memory, cells: set<int>, total: nat)
    requires Placed(l, mem, k.home, k.ring, k.extent, k.regions) && Space(k.extent, k.regions, k.inside) && l.First() <= b < l.Buckets()
    requires cells == Cells(s + l.block(), size, count) && Strung(mem, mem', s + l.block(), size, count)
    requires ChunkArea(l, k.regions, s, b, size, count, total) && forall c :: c in cells ==> c > 0 && c !in mem && c !in k.home
    requires Tiling(cells, size, s + l.block(), s + total)
    ensures Placed(l, mem', Homed(k.home, cells, b), k.ring, k.extent + Constant(cells, size), k.regions[s := total])
    ensures Space(k.extent + Constant(cells, size), k.regions[s := total], k.inside + Constant(cells, s))
    ensures cells !! k.extent.Keys && |cells| == count
  {
    var base := s + l.block();
    assert size == Size(b) && count > 0 && NewRegion(k.regions, s, total) && total > 0 by {
      assert Look(0);
      MulAtLeast(count, size);
    }
    assert Chained(mem', base, size, count, count) && Written(mem, mem', cells) by {
      assert Glance(0);
    }
    CellCount(base, size, count);
    ExtendedBy(k.extent, cells, size);
    ExtendedBy(k.inside, cells, s);
    NewlyApart(k.extent, k.regions, k.inside, s, total);
    SpaceWithChunk(k.extent, k.regions, k.inside, s, total, cells, size, base, k.extent + Constant(cells, size), k.inside + Constant(cells, s));
    ChunkFreeOnly(mem, mem', cells, base, size, count);
    assert (forall h :: h in mem ==> h in mem' && mem'[h] == mem[h]) && forall h :: h in mem' ==> h in mem || h in cells by {
      assert Look(0);
    }
    PlacedChunk(l, mem, k.home, k.ring, k.extent, k.regions, b, cells, mem', k.extent + Constant(cells, size), k.regions[s := total]);
  }

  lemma CarvedMore(home: map<int, nat>, cells: set<int>, b: nat, carved: seq<nat>, count: nat)
    requires cells !! home.Keys && |cells| == count && b < |carved|
    requires forall c :: 0 <= c < |carved| ==> |BlocksOf(home, c)| == carved[c]
    ensures forall c :: 0 <= c < |carved| ==> |BlocksOf(Homed(home, cells, b), c)| == carved[b := carved[b] + count][c]
  {
    forall c | 0 <= c < |carved|
      ensures |BlocksOf(Homed(home, cells, b), c)| == carved[b := carved[b] + count][c]
    {
      BlocksHomed(home, cells, b, c);
      assert BlocksOf(home, c) !! cells;
    }
  }

  lemma CellNext(base: int, size: int, k: int)
    ensures Cell(base, size, k + 1) == Cell(base, size, k) + size
  {}

  lemma ChainGrows(mem: Memory, base: int, size: int, count: nat, k: nat)
    requires Chained(mem, base, size, count, k) && size > 0 && k < count
    ensures Chained(mem[Cell(base, size, k) := Next(CellAfter(base, size, count, k))], base, size, count, k + 1)
  {
    assert Look(0);
    var mem' := mem[Cell(base, size, k) := Next(CellAfter(base, size, count, k))];
    forall j: nat {:trigger CellAfter(base, size, count, j)} | j < k + 1
      ensures mem'[Cell(base, size, j)] == Next(CellAfter(base, size, count, j))
    {
      if j < k {
        CellsApart(base, size, j, k);
        var next := CellAfter(base, size, count, j);
        assert mem[Cell(base, size, j)] == Next(next);
      }
    }
  }

  ghost predicate Counted(home: map<int, nat>, carved: seq<nat>) {
    forall u {:trigger Look(u)} :: Look(u) ==> forall b :: 0 <= b < |carved| ==> |BlocksOf(home, b)| == carved[b]
  }

  ghost predicate Balanced(l: Layout, nextf: seq<int>, mem: Memory, k: Books) {
    && |nextf| == l.Buckets() && |k.carved| == l.Buckets()
    && AllBuckets(nextf, mem, k.free, k.home) && Counted(k.home, k.carved)
    && Placed(l, mem, k.home, k.ring, k.extent, k.regions) && Space(k.extent, k.regions, k.inside)
  }

  /** The state of the allocator: buckets, headers, areas and ring agree. */
  ghost predicate Sound(l: Layout, nextf: seq<int>, mem: Memory, nextPtr: map<int, int>, prevPtr: map<int, int>, k: Books) {
    forall u {:trigger Peek(u)} :: Peek(u) ==> Balanced(l, nextf, mem, k) && Ring(nextPtr, prevPtr, k.ring)
  }

  lemma Unseal(l: Layout, nextf: seq<int>, mem: Memory, nextPtr: map<int, int>, prevPtr: map<int, int>, k: Books)
    requires Sound(l, nextf, mem, nextPtr, prevPtr, k)
    ensures Balanced(l, nextf, mem, k) && Ring(nextPtr, prevPtr, k.ring)
  {
    assert Peek(0);
  }

  lemma CountedMore(home: map<int, nat>, cells: set<int>, b: nat, carved: seq<nat>, count: nat)
    requires cells !! home.Keys && |cells| == count && b < |carved| && Counted(home, carved)
    ensures Counted(Homed(home, cells, b), carved[b := carved[b] + count])
  {
    assert Look(0);
    CarvedMore(home, cells, b, carved, count);
  }

  /** Headers kept, and new ones only of free blocks. */
  ghost predicate MoreFree(mem: Memory, mem': Memory, extent: map<int, int>, extent': map<int, int>) {
    forall u {:trigger Look(u)} :: Look(u) ==>
    && (forall h :: h in mem ==> h in mem' && mem'[h] == mem[h]) && (forall h :: h in mem' && h !in mem ==> mem'[h].Next?)
    && (forall h :: h in extent ==> h in extent' && extent'[h] == extent[h])
  }

  lemma Seal(l: Layout, nextf: seq<int>, mem: Memory, nextPtr: map<int, int>, prevPtr: map<int, int>, k: Books)
    requires Balanced(l, nextf, mem, k) && Ring(nextPtr, prevPtr, k.ring)
    ensures Sound(l, nextf, mem, nextPtr, prevPtr, k)
  {}

  /** A chunk joins the books. */
  lemma ChunkBooked(l: Layout, nextf: seq<int>, mem: Memory, nextPtr: map<int, int>, prevPtr: map<int, int>, k: Books, s: int, b: nat,
                    size: nat, count: nat, nextf': seq<int>, mem': Memory, total: nat)
    returns (k': Books)
    requires Sound(l, nextf, mem, nextPtr, prevPtr, k) && l.First() <= b < |nextf| && nextf[b] == NULL
    requires ChunkArea(l, k.regions, s, b, size, count, total) && Strung(mem, mem', s + l.block(), size, count)
    requires nextf' == nextf[b := s + l.block()]
    ensures Sound(l, nextf', mem', nextPtr, prevPtr, k') && k'.ring == k.ring
    ensures |k.carved| == |k'.carved| == |nextf| == |k'.free| && k'.carved == k.carved[b := k.carved[b] + count]
    ensures MoreFree(mem, mem', k.extent, k'.extent)
  {
    Unseal(l, nextf, mem, nextPtr, prevPtr, k);
    AreaPositive(l, k.regions, s, b, size, count, total);
    var cells, list := Cells(s + l.block(), size, count), CellList(s + l.block(), size, count);
    ChunkFresh(l, mem, k, s, b, size, count, cells, total);
    ChunkInBucket(l, nextf, mem, k, s, b, size, count, mem', cells, total);
    ChunkInSpace(l, mem, k, s, b, size, count, mem', cells, total);
    CountedMore(k.home, cells, b, k.carved, count);
    ChunkMoreFree(mem, mem', cells, s + l.block(), size, count, k.extent);
    k' := Books(k.free[b := list], Homed(k.home, cells, b), k.carved[b := k.carved[b] + count], k.ring, k.extent + Constant(cells, size),
      k.regions[s := total], k.inside + Constant(cells, s));
    Seal(l, nextf[b := s + l.block()], mem', nextPtr, prevPtr, k');
  }

  lemma ChunkFreeOnly(mem: Memory, mem': Memory, cells: set<int>, base: int, size: nat, count: nat)
    requires Chained(mem', base, size, count, count) && cells == Cells(base, size, count)
    ensures forall c :: c in cells ==> c in mem' && mem'[c].Next?
  {
    forall c | c in cells
      ensures c in mem' && mem'[c].Next?
    {
      assert Look(0);
      var j: nat :| j < count && Cell(base, size, j) == c;
      var next := CellAfter(base, size, count, j);
      assert mem'[Cell(base, size, j)] == Next(next);
    }
  }

  lemma ChunkMoreFree(mem: Memory, mem': Memory, cells: set<int>, base: int, size: nat, count: nat, extent: map<int, int>)
    requires Strung(mem, mem', base, size, count) && cells == Cells(base, size, count)
    requires (forall c :: c in cells ==> c !in mem) && cells !! extent.Keys
    ensures MoreFree(mem, mem', extent, extent + Constant(cells, size))
  {
    assert Glance(0);
    ChunkFreeOnly(mem, mem', cells, base, size, count);
    assert Look(0);
  }

  // ----- blocks in use

  /** The headers of the blocks in use. */
  ghost function Live(mem: Memory): set<int> {
    set h | h in mem && mem[h].InUse?
  }

  /** Bytes a block in use has for its user. */
  ghost function Room(l: Layout, mem: Memory, extent: map<int, int>, h: int): int {
    if h !in mem || mem[h].Next? then 0
    else if mem[h].index != BIG then Size(mem[h].index) - l.overhead()
    else if h - l.block() in extent then extent[h - l.block()] - l.block() - l.overhead()
    else 0
  }

  /** Blocks in use that stay as they are. */
  ghost predicate Stay(l: Layout, hs: set<int>, mem: Memory, extent: map<int, int>, mem': Memory, extent': map<int, int>) {
    forall h :: h in hs ==> h in Live(mem) && h in Live(mem') && mem'[h] == mem[h] && Room(l, mem', extent', h) == Room(l, mem, extent, h)
  }

  lemma SizeFits(l: Layout, b: nat)
    requires l.First() <= b
    ensures Size(b) >= l.overhead()
  {
    assert Pow2(4) == 16;
    if b > 1 {
      Pow2Grows(4, b + 3);
    }
  }

  ghost predicate InRing(l: Layout, k: Books, r: int) {
    r in k.ring && r > 0 && r in k.regions && r in k.extent && k.extent[r] == k.regions[r] && k.extent[r] >= l.block() + l.overhead()
  }

  /** A header in use is that of a block of its bucket, or of a big block. */
  lemma LiveHeader(l: Layout, nextf: seq<int>, mem: Memory, k: Books, h: int)
    requires Balanced(l, nextf, mem, k) && h in Live(mem)
    ensures h > 0
    ensures mem[h].index != BIG ==> h in k.home && l.First() <= k.home[h] == mem[h].index < l.Buckets() && h in k.extent && k.extent[h] == Size(mem[h].index)
    ensures mem[h].index == BIG ==> InRing(l, k, h - l.block())
  {
    if mem[h].index != BIG {
      SmallHeader(l, mem, k.home, k.ring, k.extent, h);
      var b := k.home[h];
      assert Bucket(mem, nextf[b], k.free[b], BlocksOf(k.home, b), b) by {
        assert Glance(0);
      }
      BucketBlock(mem, nextf[b], k.free[b], BlocksOf(k.home, b), b, h);
    } else {
      BigHeader(l, mem, k.home, k.ring, k.extent, k.regions, h);
    }
  }

  /** Blocks in use do not overlap. */
  lemma LiveApart(l: Layout, nextf: seq<int>, mem: Memory, nextPtr: map<int, int>, prevPtr: map<int, int>, k: Books, g: int, h: int)
    requires Sound(l, nextf, mem, nextPtr, prevPtr, k) && g in Live(mem) && h in Live(mem) && g != h
    ensures Apart(g, l.overhead() + Room(l, mem, k.extent, g), h, l.overhead() + Room(l, mem, k.extent, h))
    ensures Room(l, mem, k.extent, g) >= 0
  {
    Unseal(l, nextf, mem, nextPtr, prevPtr, k);
    LiveHeader(l, nextf, mem, k, g);
    LiveHeader(l, nextf, mem, k, h);
    var a := if mem[g].index == BIG then g - l.block() else g;
    var b := if mem[h].index == BIG then h - l.block() else h;
    if mem[g].index == BIG {
      BigNotCarved(l, mem, k.home, k.ring, a);
    }
    if mem[h].index == BIG {
      BigNotCarved(l, mem, k.home, k.ring, b);
    }
    ExtentsApart(k.extent, a, b);
    if mem[g].index != BIG {
      SizeFits(l, mem[g].index);
    }
  }

  // ----- taking and returning a block of a bucket

  /** The first free block of a bucket is taken. */
  lemma TakeStep(l: Layout, nextf: seq<int>, mem: Memory, nextPtr: map<int, int>, prevPtr: map<int, int>, k: Books, b: nat)
    returns (k': Books)
    requires Sound(l, nextf, mem, nextPtr, prevPtr, k) && b < |nextf| && nextf[b] != NULL
    ensures nextf[b] in mem && mem[nextf[b]].Next?
    ensures Sound(l, nextf[b := mem[nextf[b]].next], mem[nextf[b] := InUse(b)], nextPtr, prevPtr, k')
    ensures k' == k.(free := k'.free) && |k'.free| == |k.free|
  {
    Unseal(l, nextf, mem, nextPtr, prevPtr, k);
    assert k.free[b] != [] by {
      assert Glance(0);
      BucketHead(mem, nextf[b], k.free[b], BlocksOf(k.home, b), b);
    }
    BucketPopped(nextf, mem, k.free, k.home, b);
    PlacedHeader(l, mem, k.home, k.ring, k.extent, k.regions, nextf[b], InUse(b));
    k' := k.(free := k.free[b := k.free[b][1..]]);
    Seal(l, nextf[b := mem[nextf[b]].next], mem[nextf[b] := InUse(b)], nextPtr, prevPtr, k');
  }

  /** A block in use goes back to its bucket. */
  lemma ReturnStep(l: Layout, nextf: seq<int>, mem: Memory, nextPtr: map<int, int>, prevPtr: map<int, int>, k: Books, h: int)
    returns (k': Books)
    requires Sound(l, nextf, mem, nextPtr, prevPtr, k) && h in mem && mem[h].InUse? && mem[h].index != BIG
    ensures mem[h].index < |nextf|
    ensures var b := mem[h].index; Sound(l, nextf[b := h], mem[h := Next(nextf[b])], nextPtr, prevPtr, k')
    ensures k' == k.(free := k'.free) && |k'.free| == |k.free|
  {
    Unseal(l, nextf, mem, nextPtr, prevPtr, k);
    LiveHeader(l, nextf, mem, k, h);
    var b := mem[h].index;
    BucketPushed(nextf, mem, k.free, k.home, b, h);
    PlacedHeader(l, mem, k.home, k.ring, k.extent, k.regions, h, Next(nextf[b]));
    k' := k.(free := k.free[b := [h] + k.free[b]]);
    Seal(l, nextf[b := h], mem[h := Next(nextf[b])], nextPtr, prevPtr, k');
  }

  // ----- big blocks

  /** A big block's area and header are added. */
  lemma AddedBlock(l: Layout, nextf: seq<int>, mem: Memory, k: Books, s: int, n: int, h: int) returns (k': Books)
    requires Balanced(l, nextf, mem, k) && NewRegion(k.regions, s, n) && n >= l.block() + l.overhead() && h == s + l.block()
    ensures Balanced(l, nextf, mem[h := InUse(BIG)], k') && h !in mem && s !in k.ring && s > 0
    ensures k' == k.(ring := [s] + k.ring, extent := k.extent[s := n], regions := k.regions[s := n], inside := k.inside[s := s])
  {
    NotInMemory(l, mem, k.home, k.ring, k.extent, k.regions, k.inside, s, n, h);
    NotInMemory(l, mem, k.home, k.ring, k.extent, k.regions, k.inside, s, n, s);
    SpaceWithBig(k.extent, k.regions, k.inside, s, n);
    if s in k.ring {
      RingArea(l, k.ring, k.extent, k.regions, s);
    }
    PlacedBig(l, mem, k.home, k.ring, k.extent, k.regions, s, n, h);
    HomeKept(l, mem, k.home, k.extent, h, InUse(BIG));
    BucketsElsewhere(nextf, mem, k.free, k.home, mem[h := InUse(BIG)]);
    k' := k.(ring := [s] + k.ring, extent := k.extent[s := n], regions := k.regions[s := n], inside := k.inside[s := s]);
  }

  /** A big block is put in the ring. */
  lemma BigStep(l: Layout, nextf: seq<int>, mem: Memory, nextPtr: map<int, int>, prevPtr: map<int, int>, k: Books, s: int, n: int, h: int)
    returns (k': Books)
    requires Sound(l, nextf, mem, nextPtr, prevPtr, k) && NewRegion(k.regions, s, n) && n >= l.block() + l.overhead() && h == s + l.block()
    ensures BIG_BLOCKS in nextPtr && h !in mem
    ensures var first := nextPtr[BIG_BLOCKS];
      Sound(l, nextf, mem[h := InUse(BIG)], nextPtr[s := first][BIG_BLOCKS := s], prevPtr[s := BIG_BLOCKS][first := s], k')
    ensures k' == k.(ring := [s] + k.ring, extent := k.extent[s := n], regions := k.regions[s := n], inside := k.inside[s := s])
  {
    Unseal(l, nextf, mem, nextPtr, prevPtr, k);
    k' := AddedBlock(l, nextf, mem, k, s, n, h);
    Inserted(nextPtr, prevPtr, k.ring, s);
    var first := nextPtr[BIG_BLOCKS];
    Seal(l, nextf, mem[h := InUse(BIG)], nextPtr[s := first][BIG_BLOCKS := s], prevPtr[s := BIG_BLOCKS][first := s], k');
  }

  lemma HomeKept(l: Layout, mem: Memory, home: map<int, nat>, extent: map<int, int>, h: int, header: Header)
    requires Carved(l, mem, home, extent) && (h !in mem || mem[h] == InUse(BIG))
    ensures forall g :: g in home && g in mem ==> g != h
  {
    assert Look(0);
  }

  lemma RingArea(l: Layout, ring: seq<int>, extent: map<int, int>, regions: map<int, int>, r: int)
    requires BigAreas(l, ring, extent, regions) && r in ring
    ensures r > 0 && r in extent && r in regions && extent[r] == regions[r] && extent[r] >= l.block() + l.overhead()
  {
    assert Look(0);
  }

  /** A big block's area and header are dropped. */
  lemma DroppedBlock(l: Layout, nextf: seq<int>, mem: Memory, k: Books, h: int, r: int, i: nat) returns (k': Books)
    requires Balanced(l, nextf, mem, k) && h in mem && mem[h] == InUse(BIG) && r == h - l.block() && Distinct(k.ring) && i < |k.ring| && k.ring[i] == r
    ensures Balanced(l, nextf, mem - {h}, k')
    ensures k' == k.(ring := k.ring[..i] + k.ring[i + 1..], extent := k.extent - {r}, regions := k.regions - {r}, inside := k.inside - {r})
  {
    LiveHeader(l, nextf, mem, k, h);
    k' := k.(ring := k.ring[..i] + k.ring[i + 1..], extent := k.extent - {r}, regions := k.regions - {r}, inside := k.inside - {r});
    PlacedWithoutBig(l, mem, k.home, k.ring, k.extent, k.regions, i, r, k'.ring);
    SpaceWithoutBig(k.extent, k.regions, k.inside, r);
    HomeKept(l, mem, k.home, k.extent, h, InUse(BIG));
    BucketsElsewhere(nextf, mem, k.free, k.home, mem - {h});
  }

  /** A big block is taken out of the ring and its memory given back. */
  lemma DropStep(l: Layout, nextf: seq<int>, mem: Memory, nextPtr: map<int, int>, prevPtr: map<int, int>, k: Books, h: int, r: int)
    returns (k': Books)
    requires Sound(l, nextf, mem, nextPtr, prevPtr, k) && h in mem && mem[h] == InUse(BIG) && r == h - l.block()
    ensures r in nextPtr && r in prevPtr
    ensures Sound(l, nextf, mem - {h}, nextPtr[prevPtr[r] := nextPtr[r]] - {r}, prevPtr[nextPtr[r] := prevPtr[r]] - {r}, k')
    ensures k' == k.(ring := k'.ring, extent := k.extent - {r}, regions := k.regions - {r}, inside := k.inside - {r})
  {
    Unseal(l, nextf, mem, nextPtr, prevPtr, k);
    LiveHeader(l, nextf, mem, k, h);
    var i: nat :| i < |k.ring| && k.ring[i] == r;
    RingDistinct(nextPtr, prevPtr, k.ring);
    k' := DroppedBlock(l, nextf, mem, k, h, r, i);
    Removed(nextPtr, prevPtr, k.ring, i);
    Seal(l, nextf, mem - {h}, nextPtr[prevPtr[r] := nextPtr[r]] - {r}, prevPtr[nextPtr[r] := prevPtr[r]] - {r}, k');
  }

  lemma RingDistinct(nextPtr: map<int, int>, prevPtr: map<int, int>, ring: seq<int>)
    requires Ring(nextPtr, prevPtr, ring)
    ensures Distinct(ring) && BIG_BLOCKS !in ring
  {
    assert Look(0);
  }

  lemma PlacedSame(l: Layout, mem: Memory, home: map<int, nat>, ring: seq<int>, extent: map<int, int>, regions: map<int, int>, ring': seq<int>)
    requires Placed(l, mem, home, ring, extent, regions) && forall r :: r in ring' <==> r in ring
    ensures Placed(l, mem, home, ring', extent, regions)
  {
    assert Look(0);
  }

  lemma UpdatedMembers(ring: seq<int>, i: nat, s: int, ring': seq<int>)
    requires Distinct(ring) && i < |ring| && ring' == ring[i := s]
    ensures forall r :: r in ring' <==> r == s || (r in ring && r != ring[i])
  {
    forall r | r in ring'
      ensures r == s || (r in ring && r != ring[i])
    {
      var k :| 0 <= k < |ring'| && ring'[k] == r;
      assert k != i ==> ring[k] == r && ring[k] != ring[i];
    }
    forall r | r in ring && r != ring[i]
      ensures r in ring'
    {
      var k :| 0 <= k < |ring| && ring[k] == r;
      assert ring'[k] == r;
    }
    assert ring'[i] == s;
  }

  /** The areas and headers after a big block has been moved or resized by the system. */
  lemma MovedBlock(l: Layout, nextf: seq<int>, mem: Memory, k: Books, h: int, r: int, i: nat, s: int, n: int, h': int) returns (k': Books)
    requires Balanced(l, nextf, mem, k) && h in mem && mem[h] == InUse(BIG) && r == h - l.block() && Distinct(k.ring)
    requires i < |k.ring| && k.ring[i] == r
    requires NewRegion(k.regions - {r}, s, n) && n >= l.block() + l.overhead() && h' == s + l.block()
    ensures Balanced(l, nextf, (mem - {h})[h' := InUse(BIG)], k') && s > 0 && (s != r ==> s !in k.ring)
    ensures h' !in mem - {h} && r in k.extent && k.extent[r] >= l.block() + l.overhead()
    ensures k' == k.(ring := k.ring[i := s], extent := (k.extent - {r})[s := n], regions := (k.regions - {r})[s := n], inside := (k.inside - {r})[s := s])
  {
    LiveHeader(l, nextf, mem, k, h);
    var k1 := DroppedBlock(l, nextf, mem, k, h, r, i);
    RingWithout(k.ring, i);
    var k2 := AddedBlock(l, nextf, mem - {h}, k1, s, n, h');
    UpdatedMembers(k.ring, i, s, k.ring[i := s]);
    PlacedSame(l, (mem - {h})[h' := InUse(BIG)], k2.home, k2.ring, k2.extent, k2.regions, k.ring[i := s]);
    k' := k2.(ring := k.ring[i := s]);
  }

  /** A block of the ring and the links to it. */
  lemma Neighbours(nextPtr: map<int, int>, prevPtr: map<int, int>, ring: seq<int>, i: nat)
    requires Ring(nextPtr, prevPtr, ring) && i < |ring|
    ensures var r := ring[i]; r in nextPtr && r in prevPtr && prevPtr[r] in nextPtr && prevPtr[r] != r && nextPtr[prevPtr[r]] == r
    ensures prevPtr[ring[i]] == BIG_BLOCKS || prevPtr[ring[i]] in ring
  {
    Beside(nextPtr, prevPtr, ring, i - 1);
    Beside(nextPtr, prevPtr, ring, i);
    RingDistinct(nextPtr, prevPtr, ring);
    AtDiffers(ring, i, i - 1);
  }

  /** A big block moved or resized by the system keeps its place in the ring. */
  lemma MoveStep(l: Layout, nextf: seq<int>, mem: Memory, nextPtr: map<int, int>, prevPtr: map<int, int>, k: Books, h: int, r: int, s: int, n: int, h': int)
    returns (k': Books)
    requires Sound(l, nextf, mem, nextPtr, prevPtr, k) && h in mem && mem[h] == InUse(BIG) && r == h - l.block()
    requires NewRegion(k.regions - {r}, s, n) && n >= l.block() + l.overhead() && h' == s + l.block()
    ensures r in nextPtr && r in prevPtr && prevPtr[r] in nextPtr && prevPtr[r] != r && nextPtr[prevPtr[r]] == r && s > 0
    ensures s != r ==> s != prevPtr[r]
    ensures h' !in mem - {h} && r in k.extent && k.extent[r] >= l.block() + l.overhead()
    ensures var mem', o, p := (mem - {h})[h' := InUse(BIG)], nextPtr[r], prevPtr[r];
      if s == r then Sound(l, nextf, mem', nextPtr, prevPtr, k')
      else Sound(l, nextf, mem', (nextPtr - {r})[s := o][p := s], (prevPtr - {r})[s := p][o := s], k')
    ensures k' == k.(ring := k'.ring, extent := (k.extent - {r})[s := n], regions := (k.regions - {r})[s := n], inside := k'.inside)
  {
    Unseal(l, nextf, mem, nextPtr, prevPtr, k);
    LiveHeader(l, nextf, mem, k, h);
    var i: nat :| i < |k.ring| && k.ring[i] == r;
    RingDistinct(nextPtr, prevPtr, k.ring);
    k' := MovedBlock(l, nextf, mem, k, h, r, i, s, n, h');
    Neighbours(nextPtr, prevPtr, k.ring, i);
    var mem' := (mem - {h})[h' := InUse(BIG)];
    if s == r {
      assert k.ring[i := s] == k.ring;
      Seal(l, nextf, mem', nextPtr, prevPtr, k');
    } else {
      Replaced(nextPtr, prevPtr, k.ring, i, s);
      Seal(l, nextf, mem', (nextPtr - {r})[s := nextPtr[r]][prevPtr[r] := s], (prevPtr - {r})[s := prevPtr[r]][nextPtr[r] := s], k');
    }
  }

  // ----- what the program sees

  /** Block h is given out, and nothing else in use changes. */
  ghost predicate Given(l: Layout, mem: Memory, extent: map<int, int>, mem': Memory, extent': map<int, int>, h: int) {
    forall u {:trigger Glance(u)} :: Glance(u) ==>
    h !in Live(mem) && Live(mem') == Live(mem) + {h} && Stay(l, Live(mem), mem, extent, mem', extent')
  }

  /** Block h is taken back, and nothing else in use changes. */
  ghost predicate TakenBack(l: Layout, mem: Memory, extent: map<int, int>, mem': Memory, extent': map<int, int>, h: int) {
    forall u {:trigger Glance(u)} :: Glance(u) ==>
    h in Live(mem) && Live(mem') == Live(mem) - {h} && Stay(l, Live(mem'), mem, extent, mem', extent')
  }

  lemma SameLive(mem: Memory, extent: map<int, int>, mem': Memory, extent': map<int, int>)
    requires MoreFree(mem, mem', extent, extent')
    ensures Live(mem') == Live(mem) && (forall h :: h in mem ==> h in mem' && mem'[h] == mem[h])
    ensures forall h :: h in extent ==> h in extent' && extent'[h] == extent[h]
  {
    assert Look(0);
    assert forall h :: h in Live(mem') <==> h in Live(mem);
  }

  lemma MoreFreeStay(l: Layout, mem: Memory, extent: map<int, int>, mem': Memory, extent': map<int, int>, nextf: seq<int>, nextPtr: map<int, int>,
                     prevPtr: map<int, int>, k: Books)
    requires MoreFree(mem, mem', extent, extent') && Sound(l, nextf, mem, nextPtr, prevPtr, k) && extent == k.extent
    ensures Live(mem') == Live(mem) && Stay(l, Live(mem), mem, extent, mem', extent')
  {
    Unseal(l, nextf, mem, nextPtr, prevPtr, k);
    SameLive(mem, extent, mem', extent');
    forall h | h in Live(mem)
      ensures Room(l, mem', extent', h) == Room(l, mem, extent, h)
    {
      LiveHeader(l, nextf, mem, k, h);
    }
  }

  lemma GivenSmall(l: Layout, mem: Memory, extent: map<int, int>, mem': Memory, h: int, b: nat)
    requires h in mem && mem[h].Next? && b != BIG && mem' == mem[h := InUse(b)]
    ensures Given(l, mem, extent, mem', extent, h) && Room(l, mem', extent, h) == Size(b) - l.overhead()
  {
    assert Glance(0);
  }

  lemma GivenBig(l: Layout, mem: Memory, extent: map<int, int>, mem': Memory, extent': map<int, int>, s: int, n: int, h: int)
    requires h !in mem && h == s + l.block() && mem' == mem[h := InUse(BIG)] && extent' == extent[s := n]
    ensures Given(l, mem, extent, mem', extent', h) && Room(l, mem', extent', h) == n - l.block() - l.overhead()
  {
    assert Glance(0);
  }

  lemma TakenSmall(l: Layout, mem: Memory, extent: map<int, int>, mem': Memory, h: int, next: int)
    requires h in Live(mem) && mem' == mem[h := Next(next)]
    ensures TakenBack(l, mem, extent, mem', extent, h)
  {
    assert Glance(0);
  }

  lemma TakenBig(l: Layout, mem: Memory, extent: map<int, int>, mem': Memory, extent': map<int, int>, h: int, r: int)
    requires h in Live(mem) && r == h - l.block() && mem' == mem - {h} && extent' == extent - {r}
    ensures TakenBack(l, mem, extent, mem', extent', h)
  {
    assert Glance(0);
  }

  /** Block h becomes block h', and nothing else in use changes. */
  ghost predicate Exchanged(l: Layout, mem: Memory, extent: map<int, int>, mem': Memory, extent': map<int, int>, h: int, h': int) {
    forall u {:trigger Glance(u)} :: Glance(u) ==>
    && h in Live(mem) && h' !in Live(mem) - {h} && Live(mem') == Live(mem) - {h} + {h'}
    && Stay(l, Live(mem) - {h}, mem, extent, mem', extent')
  }

  lemma ExchangedBig(l: Layout, mem: Memory, extent: map<int, int>, mem': Memory, extent': map<int, int>, h: int, r: int, s: int, n: int, h': int)
    requires h in Live(mem) && r == h - l.block() && h' == s + l.block() && h' !in mem - {h}
    requires mem' == (mem - {h})[h' := InUse(BIG)] && extent' == (extent - {r})[s := n]
    ensures Exchanged(l, mem, extent, mem', extent', h, h') && Room(l, mem', extent', h') == n - l.block() - l.overhead()
  {
    assert Glance(0);
  }

  lemma GivenThenTaken(l: Layout, mem: Memory, extent: map<int, int>, mem1: Memory, extent1: map<int, int>, mem2: Memory, extent2: map<int, int>,
                       h: int, h': int)
    requires Given(l, mem, extent, mem1, extent1, h') && TakenBack(l, mem1, extent1, mem2, extent2, h) && h in Live(mem)
    ensures Exchanged(l, mem, extent, mem2, extent2, h, h')
    ensures h' in Live(mem1) && h' in Live(mem2) && mem2[h'] == mem1[h'] && Room(l, mem2, extent2, h') == Room(l, mem1, extent1, h')
  {
    assert Glance(0);
  }

  lemma GivenAfter(l: Layout, mem: Memory, extent: map<int, int>, mem1: Memory, extent1: map<int, int>, mem2: Memory, extent2: map<int, int>, h: int)
    requires Live(mem1) == Live(mem) && Stay(l, Live(mem), mem, extent, mem1, extent1) && Given(l, mem1, extent1, mem2, extent2, h)
    ensures Given(l, mem, extent, mem2, extent2, h)
  {
    assert Glance(0);
  }

  /** The smallest bucket with room for n bytes. */
  predicate Least(l: Layout, b: nat, n: nat) {
    l.First() <= b < l.Buckets() && n + l.overhead() <= Size(b) && forall c :: l.First() <= c < b ==> Size(c) < n + l.overhead()
  }

  lemma {:induction false} SizesGrow(b: nat, c: nat)
    requires b < c
    ensures 2 * Size(b) <= Size(c) && Size(b + 1) == 2 * Size(b)
  {
    Pow2Grows(b + 3, c + 3);
  }

  /** A block of the smallest bucket that fits wastes less than half of itself. */
  lemma LeastIsTight(l: Layout, b: nat, n: nat)
    requires Least(l, b, n)
    ensures Size(b) < 2 * (n + l.overhead())
  {
    if b > l.First() {
      SizesGrow(b - 1, b);
    } else {
      FirstSize(l);
    }
  }

  /** There is one such bucket. */
  lemma LeastOnly(l: Layout, b: nat, n: nat)
    requires Least(l, b, n)
    ensures forall c: nat | Least(l, c, n) :: c == b
  {
    forall c: nat | Least(l, c, n)
      ensures c == b
    {
      assert c < b ==> Size(c) < n + l.overhead();
      assert b < c ==> Size(b) < n + l.overhead();
    }
  }

  lemma FirstSize(l: Layout)
    ensures Size(l.First()) == l.overhead()
  {
    assert Pow2(3) == 8 && Pow2(4) == 16;
  }

  // ----- sizes as the machine has them

  const UINT_MAX := 0xFFFF_FFFF

  type Uint = n: int | 0 <= n <= UINT_MAX

  /** A sum of sizes, as wide as pointers are. */
  function Sum(l: Layout, n: nat): nat {
    if l.widePointers then n else n % 0x1_0000_0000
  }

  /** `TclpAlloc` has no block to give: the system gives none where it is asked, or the size is too big to ask it for. */
  ghost predicate Refused(l: Layout, nextf: seq<int>, n: nat, sys: int)
    requires |nextf| == l.Buckets()
  {
    if n >= l.MaxMalloc() - l.overhead() then sys == NULL || n > UINT_MAX - l.overhead() - l.block()
    else sys == NULL && forall b: nat | Least(l, b, n) :: nextf[b] == NULL
  }

  /** The block a header belongs to can be resized to n bytes without being left too short: with 4-byte pointers the
      smallest blocks and the big ones cannot when the size that counts comes round to 0. */
  predicate Honoured(l: Layout, header: Header, n: int) {
    || l.widePointers || header.Next?
    || (if header.index == BIG then n <= UINT_MAX - l.overhead() - l.block() else header.index != l.First() || n < 0xFFFF_FFF8)
  }

  /** A block of bucket i is neither too small nor more than twice too big, as the sum tells. */
  predicate Kept(l: Layout, i: nat, n: Uint) {
    var need := Sum(l, n + l.overhead());
    need <= Size(i) && (i == 0 || Size(i) <= 2 * need)
  }

  /** As long as the sum does not come round, that is: it fits, and is at least half used. */
  lemma KeptMeans(l: Layout, i: nat, n: Uint)
    requires l.First() <= i && n + l.overhead() <= UINT_MAX
    ensures Kept(l, i, n) <==> n + l.overhead() <= Size(i) <= 2 * (n + l.overhead())
  {
    AfterFirst(l, i);
    assert Sum(l, n + l.overhead()) == n + l.overhead();
  }

  lemma AfterFirst(l: Layout, i: nat)
    requires l.First() <= i
    ensures if i == l.First() then Size(i) == l.overhead() else Size(i) >= 2 * l.overhead()
  {
    FirstSize(l);
    if l.First() < i {
      SizesGrow(l.First(), i);
    }
  }

  /** A block left in place has room exactly when the size is honoured; one for which it is not is left in place, with
      room for nothing. */
  lemma KeptHasRoom(l: Layout, i: nat, n: Uint)
    requires l.First() <= i && i != BIG
    ensures Kept(l, i, n) ==> (n <= Size(i) - l.overhead() <==> Honoured(l, InUse(i), n)) && Tight(l, InUse(i), n)
    ensures !Honoured(l, InUse(i), n) ==> Kept(l, i, n) && Size(i) == l.overhead()
  {
    AfterFirst(l, i);
    if !l.widePointers && n + l.overhead() > UINT_MAX {
      assert Sum(l, n + l.overhead()) == n + l.overhead() - 0x1_0000_0000;
    } else {
      assert Sum(l, n + l.overhead()) == n + l.overhead();
    }
  }

  /** The memory the system is asked for holds a big block exactly when the size is honoured. */
  lemma AskedIsEnough(l: Layout, n: Uint)
    ensures Honoured(l, InUse(BIG), n) ==> Sum(l, l.block() + l.overhead() + n) == l.block() + l.overhead() + n
    ensures !Honoured(l, InUse(BIG), n) ==> Sum(l, l.block() + l.overhead() + n) < l.block() + l.overhead()
  {}

  // ----- contents

  function Byte(bytes: map<int, int>, a: int): int {
    if a in bytes then bytes[a] else 0
  }

  /** Where the byte for address a comes from. */
  function Source(a: int, from: int, to: int): int {
    a - to + from
  }

  /** Memory after n bytes have been copied. */
  function Copied(bytes: map<int, int>, from: int, to: int, n: int): map<int, int> {
    bytes + map a | to <= a < to + n :: Byte(bytes, Source(a, from, to))
  }

  /** The user's bytes of some blocks in use are the same. */
  ghost predicate SameBytes(l: Layout, mem: Memory, extent: map<int, int>, hs: set<int>, bytes: map<int, int>, bytes': map<int, int>) {
    forall g, a :: g in hs && g + l.overhead() <= a < g + l.overhead() + Room(l, mem, extent, g) ==> Byte(bytes', a) == Byte(bytes, a)
  }

  /** Byte j of a block. */
  function ByteOf(bytes: map<int, int>, block: int, j: int): int {
    Byte(bytes, block + j)
  }

  /** The first n bytes of a block are those of another before. */
  ghost predicate SamePrefix(bytes: map<int, int>, from: int, bytes': map<int, int>, to: int, n: int) {
    forall j :: 0 <= j < n ==> ByteOf(bytes', to, j) == ByteOf(bytes, from, j)
  }

  ghost predicate IsCopied(bytes: map<int, int>, from: int, to: int, n: int, bytes': map<int, int>) {
    forall u {:trigger Look(u)} :: Look(u) ==> bytes' == Copied(bytes, from, to, n)
  }

  lemma CopiedMore(bytes: map<int, int>, from: int, to: int, i: nat)
    ensures Copied(bytes, from, to, i + 1) == Copied(bytes, from, to, i)[to + i := Byte(bytes, from + i)]
  {
    assert Source(to + i, from, to) == from + i;
  }

  lemma CopiedPrefix(bytes: map<int, int>, from: int, to: int, n: int)
    ensures SamePrefix(bytes, from, Copied(bytes, from, to, n), to, n)
  {
    forall j | 0 <= j < n
      ensures ByteOf(Copied(bytes, from, to, n), to, j) == ByteOf(bytes, from, j)
    {
      assert Source(to + j, from, to) == from + j;
    }
  }

  /** Copying into a block in use changes no other block. */
  lemma CopyIntoBlock(l: Layout, nextf: seq<int>, mem: Memory, nextPtr: map<int, int>, prevPtr: map<int, int>, k: Books, bytes: map<int, int>,
                      h: int, from: int, n: int)
    requires Sound(l, nextf, mem, nextPtr, prevPtr, k) && h in Live(mem) && n <= Room(l, mem, k.extent, h)
    ensures SameBytes(l, mem, k.extent, Live(mem) - {h}, bytes, Copied(bytes, from, h + l.overhead(), n))
    ensures SamePrefix(bytes, from, Copied(bytes, from, h + l.overhead(), n), h + l.overhead(), n)
  {
    var to := h + l.overhead();
    var bytes' := Copied(bytes, from, to, n);
    forall g, a | g in Live(mem) - {h} && g + l.overhead() <= a < g + l.overhead() + Room(l, mem, k.extent, g)
      ensures Byte(bytes', a) == Byte(bytes, a)
    {
      LiveApart(l, nextf, mem, nextPtr, prevPtr, k, g, h);
    }
    CopiedPrefix(bytes, from, to, n);
  }

  /** Block h has become block h' with room for n bytes; the contents that fit both are kept, as is all else in use. */
  ghost predicate Resized(l: Layout, mem: Memory, extent: map<int, int>, bytes: map<int, int>, mem': Memory, extent': map<int, int>,
                          bytes': map<int, int>, h: int, h': int, n: int) {
    forall u {:trigger Peek(u)} :: Peek(u) ==>
    && Exchanged(l, mem, extent, mem', extent', h, h') && Room(l, mem', extent', h') >= n
    && SameBytes(l, mem, extent, Live(mem) - {h}, bytes, bytes')
    && SamePrefix(bytes, h + l.overhead(), bytes', h' + l.overhead(), Min(Room(l, mem, extent, h), n))
  }

  function Min(a: int, b: int): int {
    if a < b then a else b
  }

  /** Exchanging a block and copying its contents resizes it. */
  lemma CopiedResized(l: Layout, mem: Memory, extent: map<int, int>, bytes: map<int, int>, nextf: seq<int>, mem': Memory, nextPtr: map<int, int>,
                      prevPtr: map<int, int>, k: Books, h: int, h': int, n: int, bytes': map<int, int>)
    requires Sound(l, nextf, mem', nextPtr, prevPtr, k) && Exchanged(l, mem, extent, mem', k.extent, h, h') && Room(l, mem', k.extent, h') >= n
    requires bytes' == Copied(bytes, h + l.overhead(), h' + l.overhead(), Min(Room(l, mem, extent, h), n))
    ensures Resized(l, mem, extent, bytes, mem', k.extent, bytes', h, h', n)
  {
    assert Glance(0);
    CopyIntoBlock(l, nextf, mem', nextPtr, prevPtr, k, bytes, h', h + l.overhead(), Min(Room(l, mem, extent, h), n));
    forall g, a | g in Live(mem) - {h} && g + l.overhead() <= a < g + l.overhead() + Room(l, mem, extent, g)
      ensures Byte(bytes', a) == Byte(bytes, a)
    {
      assert Room(l, mem', k.extent, g) == Room(l, mem, extent, g) && g in Live(mem') - {h'};
    }
  }

  lemma Rewritten(m: map<int, int>, r: int)
    requires r in m
    ensures (m - {r})[r := m[r]] == m
  {}

  /** The same as the source splices: only when the block has moved. */
  lemma SpliceStep(l: Layout, nextf: seq<int>, mem: Memory, nextPtr: map<int, int>, prevPtr: map<int, int>, k: Books, h: int, r: int, s: int, n: int,
                   h': int, mem': Memory)
    returns (k': Books)
    requires Sound(l, nextf, mem, nextPtr, prevPtr, k) && h in mem && mem[h] == InUse(BIG) && r == h - l.block()
    requires NewRegion(k.regions - {r}, s, n) && n >= l.block() + l.overhead() && h' == s + l.block() && mem' == (mem - {h})[h' := InUse(BIG)]
    ensures r in nextPtr && r in prevPtr && s > 0 && h' !in mem - {h}
    ensures var o, p := nextPtr[r], prevPtr[r];
      var next1, prev1 := (nextPtr - {r})[s := o], (prevPtr - {r})[s := p];
      p in next1 && if next1[p] == s then Sound(l, nextf, mem', next1, prev1, k') else Sound(l, nextf, mem', next1[p := s], prev1[o := s], k')
    ensures |k'.free| == |k.free| && k'.carved == k.carved && k'.extent == (k.extent - {r})[s := n]
  {
    k' := MoveStep(l, nextf, mem, nextPtr, prevPtr, k, h, r, s, n, h');
    var o, p := nextPtr[r], prevPtr[r];
    var next1, prev1 := (nextPtr - {r})[s := o], (prevPtr - {r})[s := p];
    if s == r {
      Rewritten(nextPtr, r);
      Rewritten(prevPtr, r);
      assert next1 == nextPtr && prev1 == prevPtr && next1[p] == s;
    } else {
      assert next1[p] == r;
    }
  }

  /** The links of a big block. */
  lemma BigLinks(l: Layout, nextf: seq<int>, mem: Memory, nextPtr: map<int, int>, prevPtr: map<int, int>, k: Books, h: int, r: int)
    requires Sound(l, nextf, mem, nextPtr, prevPtr, k) && h in mem && mem[h] == InUse(BIG) && r == h - l.block()
    ensures r in nextPtr && r in prevPtr && prevPtr[r] in nextPtr && prevPtr[r] != r
  {
    Unseal(l, nextf, mem, nextPtr, prevPtr, k);
    LiveHeader(l, nextf, mem, k, h);
    var i: nat :| i < |k.ring| && k.ring[i] == r;
    Neighbours(nextPtr, prevPtr, k.ring, i);
  }

  /** The index of a block of a bucket. */
  lemma IndexFrom(l: Layout, nextf: seq<int>, mem: Memory, nextPtr: map<int, int>, prevPtr: map<int, int>, k: Books, h: int)
    requires Sound(l, nextf, mem, nextPtr, prevPtr, k) && h in mem && mem[h].InUse? && mem[h].index != BIG
    ensures l.First() <= mem[h].index < l.Buckets() && Room(l, mem, k.extent, h) == Size(mem[h].index) - l.overhead()
  {
    Unseal(l, nextf, mem, nextPtr, prevPtr, k);
    LiveHeader(l, nextf, mem, k, h);
  }

  /** A block in use when another is given out stays, and is apart from it. */
  lemma GivenKeeps(l: Layout, mem: Memory, extent: map<int, int>, nextf: seq<int>, mem1: Memory, nextPtr: map<int, int>, prevPtr: map<int, int>,
                   k1: Books, h: int, h': int)
    requires Given(l, mem, extent, mem1, k1.extent, h') && h in Live(mem) && Sound(l, nextf, mem1, nextPtr, prevPtr, k1)
    ensures h in Live(mem1) && h != h' && mem1[h] == mem[h] && Room(l, mem1, k1.extent, h) == Room(l, mem, extent, h) >= 0
    ensures Apart(h, l.overhead() + Room(l, mem1, k1.extent, h), h', l.overhead() + Room(l, mem1, k1.extent, h'))
  {
    assert Glance(0);
    LiveApart(l, nextf, mem1, nextPtr, prevPtr, k1, h, h');
  }

  lemma InPlace(l: Layout, mem: Memory, extent: map<int, int>, bytes: map<int, int>, h: int, n: int)
    requires h in Live(mem) && Room(l, mem, extent, h) >= n
    ensures Resized(l, mem, extent, bytes, mem, extent, bytes, h, h, n)
  {
    assert Exchanged(l, mem, extent, mem, extent, h, h) by {
      assert Live(mem) - {h} + {h} == Live(mem);
    }
  }

  /** A block without the room has not been resized. */
  lemma TooShort(l: Layout, mem: Memory, extent: map<int, int>, bytes: map<int, int>, mem': Memory, extent': map<int, int>,
                 bytes': map<int, int>, h: int, h': int, n: int)
    requires Room(l, mem', extent', h') < n
    ensures !Resized(l, mem, extent, bytes, mem', extent', bytes', h, h', n)
  {
    assert Resized(l, mem, extent, bytes, mem', extent', bytes', h, h', n) ==> Peek(0);
  }

  /** A block of a bucket is at most twice the size needed. */
  predicate Tight(l: Layout, header: Header, n: nat) {
    header.InUse? && (header.index == BIG || Size(header.index) <= 2 * (n + l.overhead()))
  }

  /** A block given out, the contents copied to it and the old block taken back: the block has been resized. */
  lemma CopiedOut(l: Layout, mem: Memory, extent: map<int, int>, bytes: map<int, int>, mem1: Memory, extent1: map<int, int>, nextf: seq<int>,
                  mem2: Memory, nextPtr: map<int, int>, prevPtr: map<int, int>, k: Books, h: int, h': int, n: nat, bytes': map<int, int>, from: int, to: int,
                  m: int)
    requires Given(l, mem, extent, mem1, extent1, h') && TakenBack(l, mem1, extent1, mem2, k.extent, h) && h in Live(mem)
    requires Sound(l, nextf, mem2, nextPtr, prevPtr, k) && Room(l, mem1, extent1, h') >= n
    requires h' in mem1 && Tight(l, mem1[h'], n)
    requires from == h + l.overhead() && to == h' + l.overhead() && m == Min(Room(l, mem, extent, h), n) && IsCopied(bytes, from, to, m, bytes')
    ensures Resized(l, mem, extent, bytes, mem2, k.extent, bytes', h, h', n) && h' in mem2 && Tight(l, mem2[h'], n)
  {
    GivenThenTaken(l, mem, extent, mem1, extent1, mem2, k.extent, h, h');
    assert bytes' == Copied(bytes, h + l.overhead(), h' + l.overhead(), Min(Room(l, mem, extent, h), n)) by {
      assert Look(0);
    }
    CopiedResized(l, mem, extent, bytes, nextf, mem2, nextPtr, prevPtr, k, h, h', n, bytes');
  }

  /** An allocator that has given out nothing. */
  lemma Empty(l: Layout, nextf: seq<int>, free: seq<seq<int>>, carved: seq<nat>, links: map<int, int>)
    requires |nextf| == |free| == |carved| == l.Buckets() && links == map[BIG_BLOCKS := BIG_BLOCKS]
    requires forall b :: 0 <= b < l.Buckets() ==> nextf[b] == NULL && free[b] == [] && carved[b] == 0
    ensures Sound(l, nextf, map[], links, links, Books(free, map[], carved, [], map[], map[], map[]))
  {
    var k := Books(free, map[], carved, [], map[], map[], map[]);
    assert forall b :: BlocksOf(k.home, b) == {};
    assert AllBuckets(nextf, map[], free, k.home);
    assert Counted(k.home, carved);
    assert Ring(links, links, []);
    Seal(l, nextf, map[], links, links, k);
  }
}
