/** Sizes and addresses of the power-of-two allocator (tclAlloc.c): bucket sizes, blocks carved from a chunk, and
    memory given out without overlap. */
module AllocSpace {
  import opened Folding

  function Pow2(n: nat): (p: nat)
    ensures p >= 1
  {
    if n == 0 then 1 else 2 * Pow2(n - 1)
  }

  /** Size of the blocks of a bucket, header included. */
  function Size(bucket: nat): (s: nat)
    ensures s >= 8
  {
    SizeAtLeast8(bucket);
    Pow2(bucket + 3)
  }

  lemma {:induction false} SizeAtLeast8(n: nat)
    ensures Pow2(n + 3) >= 8
  {
    if n > 0 {
      SizeAtLeast8(n - 1);
    } else {
      assert Pow2(3) == 2 * Pow2(2) == 4 * Pow2(1) == 8;
    }
  }

  lemma {:induction false} Pow2Grows(m: nat, n: nat)
    requires m < n
    ensures 2 * Pow2(m) <= Pow2(n)
  {
    if m + 1 < n {
      Pow2Grows(m, n - 1);
    }
  }

  lemma {:induction false} Pow2Divides(m: nat, n: nat)
    requires m <= n
    ensures Pow2(n) == Pow2(m) * Pow2(n - m)
  {
    if m < n {
      Pow2Divides(m, n - 1);
    }
  }

  // ----- areas

  predicate Apart(a: int, n: int, b: int, m: int) {
    a + n <= b || b + m <= a
  }

  /** Areas not overlapping. */
  ghost predicate Disjoint(areas: map<int, int>) {
    forall u {:trigger Look(u)} :: Look(u) ==>
    && (forall a :: a in areas ==> areas[a] > 0)
    && (forall a, b :: a in areas && b in areas && a != b ==> Apart(a, areas[a], b, areas[b]))
  }

  lemma ExtentsApart(areas: map<int, int>, a: int, b: int)
    requires Disjoint(areas) && a in areas && b in areas && a != b
    ensures Apart(a, areas[a], b, areas[b])
  {
    assert Look(0);
  }

  /** Blocks inside regions. */
  ghost predicate Within(extent: map<int, int>, regions: map<int, int>, inside: map<int, int>) {
    forall u {:trigger Look(u)} :: Look(u) ==>
    forall a :: a in extent ==> a in inside && inside[a] in regions && inside[a] <= a && a + extent[a] <= inside[a] + regions[inside[a]]
  }

  /** The memory had from the system, and the blocks in use or free, each inside one region, none overlapping another. */
  ghost predicate Space(extent: map<int, int>, regions: map<int, int>, inside: map<int, int>) {
    Disjoint(extent) && Disjoint(regions) && Within(extent, regions, inside)
  }

  /** What the system promises of new memory. */
  ghost predicate NewRegion(regions: map<int, int>, s: int, n: int) {
    s > 0 && forall u {:trigger Look(u)} :: Look(u) ==> forall r :: r in regions ==> Apart(s, n, r, regions[r])
  }

  lemma NewApart(regions: map<int, int>, s: int, n: int, r: int)
    requires NewRegion(regions, s, n) && r in regions
    ensures Apart(s, n, r, regions[r])
  {
    assert Look(0);
  }

  /** The blocks of a chunk. */
  function Cell(base: int, size: int, k: int): int {
    base + k * size
  }

  ghost function Cells(base: int, size: int, count: nat): set<int> {
    set k | 0 <= k < count :: Cell(base, size, k)
  }

  lemma CellsApart(base: int, size: int, j: int, k: int)
    requires size > 0 && j < k
    ensures Cell(base, size, j) + size <= Cell(base, size, k)
  {
    assert (k - j) * size >= size by {
      MulAtLeast(k - j, size);
    }
    assert k * size - j * size == (k - j) * size;
  }

  lemma MulAtLeast(n: int, size: int)
    requires n >= 1 && size >= 0
    ensures n * size >= size
  {
    assert (n - 1) * size >= 0;
  }

  lemma {:induction false} CellCount(base: int, size: int, count: nat)
    requires size > 0
    ensures |Cells(base, size, count)| == count
  {
    if count > 0 {
      var last: nat := count - 1;
      CellCount(base, size, last);
      var c := Cell(base, size, last);
      forall k | 0 <= k < last
        ensures Cell(base, size, k) != c
      {
        CellsApart(base, size, k, last);
      }
      assert Cells(base, size, count) == Cells(base, size, last) + {c};
    }
  }

  /** A big block takes a region of its own. */
  lemma SpaceWithBig(extent: map<int, int>, regions: map<int, int>, inside: map<int, int>, s: int, n: int)
    requires Space(extent, regions, inside) && NewRegion(regions, s, n) && n > 0
    ensures s !in extent && s !in regions
    ensures Space(extent[s := n], regions[s := n], inside[s := s])
  {
    NewlyApart(extent, regions, inside, s, n);
    assert Look(0);
  }

  /** A region filled by one block goes with it. */
  lemma SpaceWithoutBig(extent: map<int, int>, regions: map<int, int>, inside: map<int, int>, s: int)
    requires Space(extent, regions, inside) && s in extent && s in regions && extent[s] == regions[s]
    ensures Space(extent - {s}, regions - {s}, inside - {s})
  {
    assert Look(0);
    forall a | a in extent && a != s
      ensures inside[a] != s
    {
      assert Apart(a, extent[a], s, extent[s]);
    }
  }

  ghost function Constant(keys: set<int>, value: int): map<int, int> {
    map c | c in keys :: value
  }

  /** Keys added to a map, all with one value. */
  ghost predicate Extended(m: map<int, int>, m': map<int, int>, keys: set<int>, value: int) {
    && (forall a :: a in m' <==> a in m || a in keys)
    && (forall a :: a in keys ==> m'[a] == value)
    && (forall a :: a in m && a !in keys ==> m'[a] == m[a])
  }

  lemma ExtendedBy(m: map<int, int>, keys: set<int>, value: int)
    ensures Extended(m, m + Constant(keys, value), keys, value)
  {}

  /** Blocks of one size apart from each other, within an area. */
  ghost predicate Tiling(cells: set<int>, size: int, from: int, to: int) {
    && size > 0 && (forall c :: c in cells ==> from <= c && c + size <= to)
    && (forall c, d :: c in cells && d in cells && c != d ==> Apart(c, size, d, size))
  }

  lemma CellsTile(base: int, size: int, count: nat)
    requires size > 0
    ensures Tiling(Cells(base, size, count), size, base, base + size * count)
  {
    forall c | c in Cells(base, size, count)
      ensures base <= c && c + size <= base + size * count
    {
      var k :| 0 <= k < count && Cell(base, size, k) == c;
      CellsApart(base, size, -1, k);
      CellsApart(base, size, k, count);
    }
    forall c, d | c in Cells(base, size, count) && d in Cells(base, size, count) && c != d
      ensures Apart(c, size, d, size)
    {
      var j :| 0 <= j < count && Cell(base, size, j) == c;
      var k :| 0 <= k < count && Cell(base, size, k) == d;
      if j < k {
        CellsApart(base, size, j, k);
      } else {
        CellsApart(base, size, k, j);
      }
    }
  }

  /** A region of memory cut into blocks of one size. */
  lemma SpaceWithChunk(extent: map<int, int>, regions: map<int, int>, inside: map<int, int>, s: int, n: int, cells: set<int>, size: int,
                       from: int, extent': map<int, int>, inside': map<int, int>)
    requires Space(extent, regions, inside) && NewRegion(regions, s, n) && n > 0
    requires s <= from && Tiling(cells, size, from, s + n)
    requires Extended(extent, extent', cells, size) && Extended(inside, inside', cells, s)
    ensures cells !! extent.Keys
    ensures Space(extent', regions[s := n], inside')
  {
    NewlyApart(extent, regions, inside, s, n);
    forall c, a | c in cells && a in extent
      ensures Apart(c, size, a, extent[a]) && c != a
    {
      assert Apart(s, n, a, extent[a]);
    }
    BlocksJoin(extent, extent', cells, size);
    RegionJoins(regions, s, n);
    WithinJoin(extent, regions, inside, s, n, cells, size, extent', inside');
  }

  lemma BlocksJoin(extent: map<int, int>, extent': map<int, int>, cells: set<int>, size: int)
    requires Disjoint(extent) && Extended(extent, extent', cells, size) && size > 0
    requires forall c, d :: c in cells && d in cells && c != d ==> Apart(c, size, d, size)
    requires forall c, a :: c in cells && a in extent ==> Apart(c, size, a, extent[a]) && c != a
    ensures Disjoint(extent')
  {
    assert Look(0);
    forall a, b | a in extent' && b in extent' && a != b
      ensures Apart(a, extent'[a], b, extent'[b])
    {
      assert a in cells || a in extent;
      assert b in cells || b in extent;
    }
  }

  lemma RegionJoins(regions: map<int, int>, s: int, n: int)
    requires Disjoint(regions) && NewRegion(regions, s, n) && n > 0
    ensures Disjoint(regions[s := n])
  {
    assert Look(0);
  }

  lemma WithinJoin(extent: map<int, int>, regions: map<int, int>, inside: map<int, int>, s: int, n: int, cells: set<int>, size: int,
                   extent': map<int, int>, inside': map<int, int>)
    requires Within(extent, regions, inside) && s !in regions && cells !! extent.Keys
    requires forall c :: c in cells ==> s <= c && c + size <= s + n
    requires Extended(extent, extent', cells, size) && Extended(inside, inside', cells, s)
    ensures Within(extent', regions[s := n], inside')
  {
    assert Look(0);
  }

  lemma NewlyApart(extent: map<int, int>, regions: map<int, int>, inside: map<int, int>, s: int, n: int)
    requires Space(extent, regions, inside) && NewRegion(regions, s, n) && n > 0
    ensures s !in regions && forall a :: a in extent ==> extent[a] > 0 && Apart(s, n, a, extent[a])
  {
    assert Look(0);
    assert s in regions ==> Apart(s, n, s, regions[s]);
    forall a | a in extent
      ensures Apart(s, n, a, extent[a])
    {
      assert Apart(s, n, inside[a], regions[inside[a]]);
    }
  }
}
