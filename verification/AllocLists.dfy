/** The free lists of the power-of-two allocator (tclAlloc.c) and the ring of big blocks. */
module AllocLists {
  import opened Folding

  const NULL := 0

  /** The address of `bigBlocks`, the head of the ring. */
  const BIG_BLOCKS := -1

  /** The bucket number of a big block. */
  const BIG := 255

  /** The word before a block: a link while it is free, magic numbers and the bucket while it is in use. */
  datatype Header = Next(next: int) | InUse(index: nat)

  type Memory = map<int, Header>

  function After(list: seq<int>, i: nat): int {
    if i + 1 < |list| then list[i + 1] else NULL
  }

  ghost predicate Distinct(list: seq<int>) {
    forall i, j :: 0 <= i < j < |list| ==> list[i] != list[j]
  }

  /** The blocks of a bucket: those free linked in a list from `head`, the others in use. */
  ghost predicate Bucket(mem: Memory, head: int, list: seq<int>, blocks: set<int>, b: nat) {
    forall u {:trigger Look(u)} :: Look(u) ==>
    && head == (if list == [] then NULL else list[0]) && Distinct(list)
    && (forall h :: h in list ==> h in blocks && h != NULL)
    && (forall h :: h in blocks ==> h in mem && (mem[h].Next? <==> h in list) && (mem[h].InUse? ==> mem[h].index == b))
    && (forall i {:trigger After(list, i)} :: 0 <= i < |list| ==> mem[list[i]] == Next(After(list, i)))
  }

  lemma BucketHead(mem: Memory, head: int, list: seq<int>, blocks: set<int>, b: nat)
    requires Bucket(mem, head, list, blocks, b)
    ensures head == NULL <==> list == []
    ensures list != [] ==> head == list[0] && head in blocks && head in mem && mem[head] == Next(After(list, 0))
  {
    assert Look(0);
    if list != [] {
      assert list[0] in list;
      assert mem[list[0]] == Next(After(list, 0));
    }
  }

  lemma BucketBlock(mem: Memory, head: int, list: seq<int>, blocks: set<int>, b: nat, h: int)
    requires Bucket(mem, head, list, blocks, b) && h in blocks
    ensures h in mem && (mem[h].Next? <==> h in list) && (mem[h].InUse? ==> mem[h].index == b)
  {
    assert Look(0);
  }

  /** The first free block taken. */
  lemma Popped(mem: Memory, head: int, list: seq<int>, blocks: set<int>, b: nat)
    requires Bucket(mem, head, list, blocks, b) && list != []
    ensures Bucket(mem[head := InUse(b)], After(list, 0), list[1..], blocks, b)
  {
    assert Look(0);
    var rest := list[1..];
    var mem' := mem[head := InUse(b)];
    assert forall h :: h in rest ==> h in list;
    forall h | h in list && h != list[0]
      ensures h in rest
    {
      var k :| 0 <= k < |list| && list[k] == h;
      assert rest[k - 1] == h;
    }
    forall i {:trigger After(rest, i)} | 0 <= i < |rest|
      ensures mem'[rest[i]] == Next(After(rest, i))
    {
      assert mem[list[i + 1]] == Next(After(list, i + 1));
    }
  }

  /** A block in use put in front of the free ones. */
  lemma Pushed(mem: Memory, head: int, list: seq<int>, blocks: set<int>, b: nat, h: int)
    requires Bucket(mem, head, list, blocks, b) && h in blocks && h in mem && mem[h].InUse? && h != NULL
    ensures Bucket(mem[h := Next(head)], h, [h] + list, blocks, b)
  {
    assert Look(0);
    var more := [h] + list;
    var mem' := mem[h := Next(head)];
    assert more[1..] == list;
    forall i {:trigger After(more, i)} | 0 <= i < |more|
      ensures mem'[more[i]] == Next(After(more, i))
    {
      if i > 0 {
        var k: nat := i - 1;
        assert more[i] == list[k] && list[k] in list;
        assert mem[list[k]] == Next(After(list, k));
      }
    }
  }

  /** Other memory does not matter. */
  lemma Elsewhere(mem: Memory, head: int, list: seq<int>, blocks: set<int>, b: nat, mem': Memory)
    requires Bucket(mem, head, list, blocks, b)
    requires forall h :: h in blocks && h in mem ==> h in mem' && mem'[h] == mem[h]
    ensures Bucket(mem', head, list, blocks, b)
  {
    assert Look(0);
    forall i {:trigger After(list, i)} | 0 <= i < |list|
      ensures list[i] in mem' && mem'[list[i]] == Next(After(list, i))
    {
      assert list[i] in list;
      assert mem[list[i]] == Next(After(list, i));
    }
  }

  /** New blocks, linked in a list, join a bucket that had none free. */
  lemma Filled(mem: Memory, head: int, blocks: set<int>, b: nat, mem': Memory, list: seq<int>, cells: set<int>)
    requires Bucket(mem, head, [], blocks, b) && list != [] && Distinct(list)
    requires forall h :: h in list <==> h in cells
    requires NULL !in cells && cells !! blocks
    requires forall h :: h in blocks && h in mem ==> h in mem' && mem'[h] == mem[h]
    requires forall i :: 0 <= i < |list| ==> list[i] in mem'
    requires forall i {:trigger After(list, i)} :: 0 <= i < |list| ==> mem'[list[i]] == Next(After(list, i))
    ensures Bucket(mem', list[0], list, blocks + cells, b)
  {
    assert Look(0);
    forall h | h in list
      ensures mem'[h].Next?
    {
      var k: nat :| 0 <= k < |list| && list[k] == h;
      var next := After(list, k);
      assert mem'[list[k]] == Next(next);
    }
  }

  ghost function LiveIn(mem: Memory, blocks: set<int>): set<int> {
    set h | h in blocks && h in mem && mem[h].InUse?
  }

  ghost function Elements(list: seq<int>): set<int> {
    set h | h in list
  }

  lemma {:induction false} AsMany(list: seq<int>)
    requires Distinct(list)
    ensures |Elements(list)| == |list|
  {
    if list != [] {
      var last: nat := |list| - 1;
      AsMany(list[..last]);
      assert Elements(list) == Elements(list[..last]) + {list[last]};
    }
  }

  /** The blocks of a bucket are those in use and those free, together. */
  lemma LiveAndFree(mem: Memory, head: int, list: seq<int>, blocks: set<int>, b: nat)
    requires Bucket(mem, head, list, blocks, b)
    ensures |LiveIn(mem, blocks)| + |list| == |blocks|
  {
    assert Look(0);
    AsMany(list);
    forall h | h in blocks
      ensures h in LiveIn(mem, blocks) || h in Elements(list)
    {
      assert mem[h].Next? || mem[h].InUse?;
    }
    assert LiveIn(mem, blocks) + Elements(list) == blocks;
    assert LiveIn(mem, blocks) !! Elements(list);
  }

  // ----- the ring of big blocks

  function At(ring: seq<int>, i: int): int {
    if 0 <= i < |ring| then ring[i] else BIG_BLOCKS
  }

  /** A doubly linked ring through the head. */
  ghost predicate Ring(nextPtr: map<int, int>, prevPtr: map<int, int>, ring: seq<int>) {
    forall u {:trigger Look(u)} :: Look(u) ==>
    && Distinct(ring) && BIG_BLOCKS !in ring && BIG_BLOCKS in nextPtr && BIG_BLOCKS in prevPtr
    && (forall r :: r in ring ==> r in nextPtr && r in prevPtr)
    && (forall i, j {:trigger At(ring, i), At(ring, j)} :: -1 <= i < |ring| && j == i + 1 ==>
      nextPtr[At(ring, i)] == At(ring, j) && prevPtr[At(ring, j)] == At(ring, i))
  }

  /** What lies beside block i of the ring. */
  lemma Beside(nextPtr: map<int, int>, prevPtr: map<int, int>, ring: seq<int>, i: int)
    requires Ring(nextPtr, prevPtr, ring) && -1 <= i < |ring|
    ensures At(ring, i) in nextPtr && At(ring, i) in prevPtr && At(ring, i + 1) in nextPtr && At(ring, i + 1) in prevPtr
    ensures nextPtr[At(ring, i)] == At(ring, i + 1) && prevPtr[At(ring, i + 1)] == At(ring, i)
  {
    assert Look(0);
    assert 0 <= i ==> ring[i] in ring;
    assert i + 1 < |ring| ==> ring[i + 1] in ring;
  }

  lemma Linking(nextPtr: map<int, int>, prevPtr: map<int, int>, ring: seq<int>)
    requires Distinct(ring) && BIG_BLOCKS !in ring && BIG_BLOCKS in nextPtr && BIG_BLOCKS in prevPtr
    requires forall r :: r in ring ==> r in nextPtr && r in prevPtr
    requires forall i {:trigger At(ring, i)} :: -1 <= i < |ring| ==> nextPtr[At(ring, i)] == At(ring, i + 1) && prevPtr[At(ring, i + 1)] == At(ring, i)
    ensures Ring(nextPtr, prevPtr, ring)
  {}

  /** A block put in after the head. */
  lemma Inserted(nextPtr: map<int, int>, prevPtr: map<int, int>, ring: seq<int>, r: int)
    requires Ring(nextPtr, prevPtr, ring) && r !in ring && r != BIG_BLOCKS
    ensures BIG_BLOCKS in nextPtr
    ensures var first := nextPtr[BIG_BLOCKS];
      Ring(nextPtr[r := first][BIG_BLOCKS := r], prevPtr[r := BIG_BLOCKS][first := r], [r] + ring)
  {
    assert Look(0);
    var first, ring' := nextPtr[BIG_BLOCKS], [r] + ring;
    var next', prev' := nextPtr[r := first][BIG_BLOCKS := r], prevPtr[r := BIG_BLOCKS][first := r];
    Beside(nextPtr, prevPtr, ring, -1);
    forall i {:trigger At(ring', i)} | -1 <= i < |ring'|
      ensures next'[At(ring', i)] == At(ring', i + 1) && prev'[At(ring', i + 1)] == At(ring', i)
    {
      if i > 0 {
        Beside(nextPtr, prevPtr, ring, i - 1);
        assert At(ring', i) == ring[i - 1] && ring[i - 1] in ring;
        assert At(ring', i + 1) == At(ring, i);
        assert i < |ring| ==> ring[i] != ring[0];
      }
    }
    Linking(next', prev', ring');
  }

  /** A block taken out between its neighbours. */
  lemma Removed(nextPtr: map<int, int>, prevPtr: map<int, int>, ring: seq<int>, i: nat)
    requires Ring(nextPtr, prevPtr, ring) && i < |ring|
    ensures ring[i] in nextPtr && ring[i] in prevPtr
    ensures var r := ring[i];
      Ring(nextPtr[prevPtr[r] := nextPtr[r]] - {r}, prevPtr[nextPtr[r] := prevPtr[r]] - {r}, ring[..i] + ring[i + 1..])
  {
    assert Look(0);
    Beside(nextPtr, prevPtr, ring, i - 1);
    Beside(nextPtr, prevPtr, ring, i);
    var r, ring' := ring[i], ring[..i] + ring[i + 1..];
    var next', prev' := nextPtr[prevPtr[r] := nextPtr[r]] - {r}, prevPtr[nextPtr[r] := prevPtr[r]] - {r};
    forall k | 0 <= k < |ring'|
      ensures ring'[k] == ring[if k < i then k else k + 1] && ring'[k] in ring && ring'[k] != r
    {}
    forall k {:trigger At(ring', k)} | -1 <= k < |ring'|
      ensures At(ring', k) in next' && At(ring', k + 1) in prev'
      ensures next'[At(ring', k)] == At(ring', k + 1) && prev'[At(ring', k + 1)] == At(ring', k)
    {
      Beside(nextPtr, prevPtr, ring, k);
      if k + 1 < |ring| {
        Beside(nextPtr, prevPtr, ring, k + 1);
      }
      AtDiffers(ring, i, k);
    }
    Linking(next', prev', ring');
  }

  lemma AtDiffers(ring: seq<int>, i: nat, k: int)
    requires Distinct(ring) && BIG_BLOCKS !in ring && i < |ring| && -1 <= k <= |ring|
    ensures k != i ==> At(ring, k) != ring[i]
  {
    assert ring[i] in ring;
  }

  /** A block that has moved put in the place of its old self. */
  lemma Replaced(nextPtr: map<int, int>, prevPtr: map<int, int>, ring: seq<int>, i: nat, r: int)
    requires Ring(nextPtr, prevPtr, ring) && i < |ring| && r !in ring && r != BIG_BLOCKS
    ensures ring[i] in nextPtr && ring[i] in prevPtr
    ensures var o := ring[i]; var n, p := nextPtr[o], prevPtr[o];
      Ring((nextPtr - {o})[r := n][p := r], (prevPtr - {o})[r := p][n := r], ring[i := r])
  {
    assert Look(0);
    Beside(nextPtr, prevPtr, ring, i - 1);
    Beside(nextPtr, prevPtr, ring, i);
    var o, ring' := ring[i], ring[i := r];
    var n, p := nextPtr[o], prevPtr[o];
    var next', prev' := (nextPtr - {o})[r := n][p := r], (prevPtr - {o})[r := p][n := r];
    forall k {:trigger At(ring', k)} | -1 <= k < |ring'|
      ensures At(ring', k) in next' && At(ring', k + 1) in prev'
      ensures next'[At(ring', k)] == At(ring', k + 1) && prev'[At(ring', k + 1)] == At(ring', k)
    {
      Beside(nextPtr, prevPtr, ring, k);
      AtDiffers(ring, i, k);
      AtDiffers(ring, i, k + 1);
    }
    Linking(next', prev', ring');
  }
}
