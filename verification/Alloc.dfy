/** The power-of-two allocator (tclAlloc.c, the build with its own free lists, without range checks and statistics).
    What the system's allocator answers is a parameter: NULL, or an area apart from those it has given before. */
module Alloc {
  import opened Folding
  import opened AllocSpace
  import opened AllocLists
  import opened AllocBlocks
  import opened AllocSteps

  method NumBlocks(l: Layout, bucket: nat, amount: nat) returns (size: nat, numBlocks: nat)
    requires bucket < l.Buckets() && amount == l.MaxMalloc()
    ensures size == Size(bucket) && numBlocks == PerChunk(l, bucket) && size * numBlocks == amount
  {
    ChunkCount(l, bucket);
    size := Size(bucket);
    numBlocks := amount / size;
  }

  class Allocator {
    const l: Layout
    var nextf: seq<int>
    var mem: Memory
    var nextPtr: map<int, int>
    var prevPtr: map<int, int>
    /** The contents of memory. */
    var bytes: map<int, int>
    ghost var k: Books

    /** As the program starts: no block is in use. */
    constructor (l: Layout)
      ensures Valid() && this.l == l && Live(mem) == {} && k.regions == map[] && forall b :: 0 <= b < |k.carved| ==> k.carved[b] == 0
    {
      this.l := l;
      var none := seq(l.Buckets(), i => NULL);
      ghost var free: seq<seq<int>>, carved: seq<nat> := seq(l.Buckets(), i => []), seq(l.Buckets(), i => 0);
      nextf := none;
      mem, bytes := map[], map[];
      nextPtr, prevPtr := map[BIG_BLOCKS := BIG_BLOCKS], map[BIG_BLOCKS := BIG_BLOCKS];
      k := Books(free, map[], carved, [], map[], map[], map[]);
      Empty(l, none, free, carved, map[BIG_BLOCKS := BIG_BLOCKS]);
    }

    ghost predicate Valid()
      reads this
    {
      Sound(l, nextf, mem, nextPtr, prevPtr, k) && |nextf| == |k.free| == |k.carved| == l.Buckets()
    }

    /** The loop of `MoreCore`: a chunk's blocks linked, the last to nothing. */
    method LinkBlocks(base: int, size: nat, count: nat)
      requires size > 0 && count > 0
      modifies this`mem
      ensures Strung(old(mem), mem, base, size, count)
    {
      var overPtr := base;
      var numBlocks := count - 1;
      ghost var i := 0;
      while numBlocks > 0
        invariant 0 <= i < count && numBlocks == count - 1 - i && overPtr == Cell(base, size, i)
        invariant Chained(mem, base, size, count, i)
        invariant Written(old(mem), mem, Cells(base, size, count))
      {
        CellNext(base, size, i);
        ChainGrows(mem, base, size, count, i);
        WrittenMore(old(mem), mem, base, size, count, i, Next(overPtr + size));
        mem := mem[overPtr := Next(overPtr + size)];
        overPtr := overPtr + size;
        numBlocks := numBlocks - 1;
        i := i + 1;
      }
      ChainGrows(mem, base, size, count, i);
      WrittenMore(old(mem), mem, base, size, count, i, Next(NULL));
      mem := mem[overPtr := Next(NULL)];
    }

    /** `MoreCore` once it has memory: the blocks of the chunk become the bucket's free ones. */
    method UseChunk(bucket: nat, sys: int, size: nat, numBlocks: nat, ghost total: nat)
      requires Valid() && l.First() <= bucket < |nextf| && nextf[bucket] == NULL && sys > 0 && size > 0 && numBlocks > 0
      requires ChunkArea(l, k.regions, sys, bucket, size, numBlocks, total)
      modifies this`nextf, this`mem, this`k
      ensures Valid() && k.ring == old(k.ring) && nextf[bucket] != NULL
      ensures MoreFree(old(mem), mem, old(k.extent), k.extent)
      ensures k.carved == old(k.carved)[bucket := old(k.carved)[bucket] + numBlocks]
    {
      var overPtr := sys + l.block();
      ghost var mem0, nextf0 := mem, nextf;
      nextf := nextf[bucket := overPtr];
      LinkBlocks(overPtr, size, numBlocks);
      k := ChunkBooked(l, nextf0, mem0, nextPtr, prevPtr, k, sys, bucket, size, numBlocks, nextf, mem, total);
    }

    /** `MoreCore`: a chunk from the system cut into blocks for an empty bucket. */
    method MoreCore(bucket: nat, sys: int)
      requires Valid() && l.First() <= bucket < l.Buckets() && nextf[bucket] == NULL
      requires sys != NULL ==> NewRegion(k.regions, sys, l.block() + l.MaxMalloc())
      modifies this`nextf, this`mem, this`k
      ensures Valid() && k.ring == old(k.ring)
      ensures nextf[bucket] == NULL <==> sys == NULL
      ensures sys == NULL ==> mem == old(mem) && k == old(k) && nextf == old(nextf)
      ensures MoreFree(old(mem), mem, old(k.extent), k.extent)
      ensures k.carved == if sys == NULL then old(k.carved) else old(k.carved)[bucket := old(k.carved)[bucket] + PerChunk(l, bucket)]
    {
      var amount := l.MaxMalloc();
      var size, numBlocks := NumBlocks(l, bucket, amount);
      if sys == NULL {
        return;
      }
      UseChunk(bucket, sys, size, numBlocks, l.block() + amount);
    }

    /** The search for a bucket, doubling the size; sizes are 32-bit. */
    method ChooseBucket(numBytes: nat) returns (bucket: nat)
      requires numBytes < l.MaxMalloc() - l.overhead()
      ensures Least(l, bucket, numBytes)
    {
      var amount := l.overhead();
      bucket := l.First();
      FirstSize(l);
      while numBytes + l.overhead() > amount
        invariant l.First() <= bucket < l.Buckets() && amount == Size(bucket)
        invariant forall c :: l.First() <= c < bucket ==> Size(c) < numBytes + l.overhead()
        decreases l.Buckets() - bucket
      {
        SizesGrow(bucket, bucket + 1);
        LastSize(l, bucket);
        amount := 2 * amount % 0x1_0000_0000;
        // the source gives up at 0, which does not come
        assert amount != 0;
        bucket := bucket + 1;
      }
    }

    /** A big block straight from the system, put into the ring. */
    method AllocBig(numBytes: nat, sys: int) returns (p: int)
      requires Valid() && (sys != NULL ==> NewRegion(k.regions, sys, l.block() + l.overhead() + numBytes))
      modifies this`mem, this`nextPtr, this`prevPtr, this`k
      ensures Valid()
      ensures p == NULL ==> mem == old(mem) && k == old(k)
      ensures p != NULL ==> Given(l, old(mem), old(k.extent), mem, k.extent, p - l.overhead())
      ensures p != NULL ==> p > l.overhead() && Room(l, mem, k.extent, p - l.overhead()) == numBytes
      ensures p != NULL ==> p - l.overhead() in mem && mem[p - l.overhead()] == InUse(BIG)
      ensures p == NULL <==> sys == NULL || numBytes > UINT_MAX - l.overhead() - l.block()
    {
      var bigBlockPtr := NULL;
      if numBytes <= UINT_MAX - l.overhead() - l.block() {
        bigBlockPtr := sys;
      }
      if bigBlockPtr == NULL {
        return NULL;
      }
      var overPtr := bigBlockPtr + l.block();
      ghost var mem0, k0 := mem, k;
      k := BigStep(l, nextf, mem, nextPtr, prevPtr, k, bigBlockPtr, l.block() + l.overhead() + numBytes, overPtr);
      var first := nextPtr[BIG_BLOCKS];
      nextPtr := nextPtr[bigBlockPtr := first];
      nextPtr := nextPtr[BIG_BLOCKS := bigBlockPtr];
      prevPtr := prevPtr[bigBlockPtr := BIG_BLOCKS];
      prevPtr := prevPtr[first := bigBlockPtr];
      mem := mem[overPtr := InUse(BIG)];
      GivenBig(l, mem0, k0.extent, mem, k.extent, bigBlockPtr, l.block() + l.overhead() + numBytes, overPtr);
      p := overPtr + l.overhead();
    }

    /** The first free block of the bucket, from a new chunk if there is none. */
    method AllocSmall(numBytes: nat, sys: int) returns (p: int)
      requires Valid() && numBytes < l.MaxMalloc() - l.overhead()
      requires sys != NULL ==> NewRegion(k.regions, sys, l.block() + l.MaxMalloc())
      modifies this`nextf, this`mem, this`k
      ensures Valid()
      ensures p == NULL ==> mem == old(mem) && k == old(k) && nextf == old(nextf)
      ensures p == NULL <==> sys == NULL && forall b: nat | Least(l, b, numBytes) :: old(nextf)[b] == NULL
      ensures p != NULL ==> Given(l, old(mem), old(k.extent), mem, k.extent, p - l.overhead())
      ensures p != NULL ==> p > l.overhead() && p - l.overhead() in mem && mem[p - l.overhead()].InUse? && Least(l, mem[p - l.overhead()].index, numBytes)
      ensures p != NULL ==> Room(l, mem, k.extent, p - l.overhead()) >= numBytes
    {
      var bucket := ChooseBucket(numBytes);
      LeastOnly(l, bucket, numBytes);
      var overPtr := nextf[bucket];
      ghost var mem0, nextf0, k0 := mem, nextf, k;
      if overPtr == NULL {
        MoreCore(bucket, sys);
        overPtr := nextf[bucket];
        if overPtr == NULL {
          return NULL;
        }
        MoreFreeStay(l, mem0, k0.extent, mem, k.extent, nextf0, nextPtr, prevPtr, k0);
      }
      ghost var mem1, extent1 := mem, k.extent;
      k := TakeStep(l, nextf, mem, nextPtr, prevPtr, k, bucket);
      nextf := nextf[bucket := mem[overPtr].next];
      mem := mem[overPtr := InUse(bucket)];
      GivenSmall(l, mem1, extent1, mem, overPtr, bucket);
      GivenAfter(l, mem0, k0.extent, mem1, extent1, mem, k.extent, overPtr);
      LiveIsPositive(l, nextf, mem, nextPtr, prevPtr, k, overPtr);
      p := overPtr + l.overhead();
    }

    /** `TclpAlloc`; `sys` is the system's answer if it is asked. */
    method Alloc(numBytes: Uint, sys: int) returns (p: int)
      requires Valid() && (sys != NULL ==> NewRegion(k.regions, sys, Wanted(l, numBytes)))
      modifies this`nextf, this`mem, this`nextPtr, this`prevPtr, this`k
      ensures Valid()
      ensures p == NULL ==> mem == old(mem) && k == old(k) && nextf == old(nextf)
      ensures p == NULL <==> Refused(l, old(nextf), numBytes, sys)
      ensures p == NULL ==> sys == NULL || numBytes > UINT_MAX - l.overhead() - l.block()
      ensures numBytes < l.MaxMalloc() - l.overhead() ==>
        (p == NULL <==> sys == NULL && forall b: nat | Least(l, b, numBytes) :: old(nextf)[b] == NULL)
      ensures p != NULL ==> Given(l, old(mem), old(k.extent), mem, k.extent, p - l.overhead())
      ensures p != NULL ==> p > l.overhead() && Room(l, mem, k.extent, p - l.overhead()) >= numBytes
      ensures p != NULL ==> p - l.overhead() in mem
      ensures p != NULL ==> if numBytes >= l.MaxMalloc() - l.overhead() then mem[p - l.overhead()] == InUse(BIG)
        else mem[p - l.overhead()].InUse? && Least(l, mem[p - l.overhead()].index, numBytes)
    {
      if numBytes >= l.MaxMalloc() - l.overhead() {
        p := AllocBig(numBytes, sys);
      } else {
        p := AllocSmall(numBytes, sys);
      }
    }

    /** `TclpFree`; freeing NULL or a block already free does nothing. */
    method Free(oldPtr: int)
      requires Valid() && (oldPtr != NULL ==> oldPtr - l.overhead() in mem)
      modifies this`nextf, this`mem, this`nextPtr, this`prevPtr, this`k
      ensures Valid()
      ensures oldPtr == NULL || oldPtr - l.overhead() !in Live(old(mem)) ==> mem == old(mem) && k == old(k)
      ensures oldPtr != NULL && oldPtr - l.overhead() in Live(old(mem)) ==>
        TakenBack(l, old(mem), old(k.extent), mem, k.extent, oldPtr - l.overhead())
    {
      if oldPtr == NULL {
        return;
      }
      var overPtr := oldPtr - l.overhead();
      if mem[overPtr].Next? {
        return;
      }
      ghost var mem0, k0 := mem, k;
      var size := mem[overPtr].index;
      if size == BIG {
        var bigBlockPtr := overPtr - l.block();
        k := DropStep(l, nextf, mem, nextPtr, prevPtr, k, overPtr, bigBlockPtr);
        nextPtr := nextPtr[prevPtr[bigBlockPtr] := nextPtr[bigBlockPtr]];
        prevPtr := prevPtr[nextPtr[bigBlockPtr] := prevPtr[bigBlockPtr]];
        nextPtr, prevPtr, mem := nextPtr - {bigBlockPtr}, prevPtr - {bigBlockPtr}, mem - {overPtr};
        TakenBig(l, mem0, k0.extent, mem, k.extent, overPtr, bigBlockPtr);
        return;
      }
      k := ReturnStep(l, nextf, mem, nextPtr, prevPtr, k, overPtr);
      mem := mem[overPtr := Next(nextf[size])];
      nextf := nextf[size := overPtr];
      TakenSmall(l, mem0, k0.extent, mem, overPtr, mem[overPtr].next);
    }

    /** `memcpy` between areas that do not overlap. */
    method MemCopy(to: int, from: int, n: nat)
      requires Apart(to, n, from, n)
      modifies this`bytes
      ensures IsCopied(old(bytes), from, to, n, bytes)
    {
      var i := 0;
      while i < n
        invariant 0 <= i <= n && bytes == Copied(old(bytes), from, to, i)
      {
        CopiedMore(old(bytes), from, to, i);
        assert Byte(bytes, from + i) == Byte(old(bytes), from + i);
        bytes := bytes[to + i := Byte(bytes, from + i)];
        i := i + 1;
      }
    }

    /** A moved big block takes the old one's place in the ring. */
    method Splice(bigBlockPtr: int, sys: int)
      requires bigBlockPtr in nextPtr && bigBlockPtr in prevPtr && prevPtr[bigBlockPtr] in nextPtr && prevPtr[bigBlockPtr] != bigBlockPtr
      modifies this`nextPtr, this`prevPtr
      ensures var prev, next := old(prevPtr[bigBlockPtr]), old(nextPtr[bigBlockPtr]);
        var next1, prev1 := (old(nextPtr) - {bigBlockPtr})[sys := next], (old(prevPtr) - {bigBlockPtr})[sys := prev];
        if next1[prev] == sys then nextPtr == next1 && prevPtr == prev1 else nextPtr == next1[prev := sys] && prevPtr == prev1[next := sys]
    {
      var prev, next := prevPtr[bigBlockPtr], nextPtr[bigBlockPtr];
      nextPtr := (nextPtr - {bigBlockPtr})[sys := next];
      prevPtr := (prevPtr - {bigBlockPtr})[sys := prev];
      if nextPtr[prev] != sys {
        nextPtr := nextPtr[prev := sys];
        prevPtr := prevPtr[next := sys];
      }
    }

    /** A big block moved or resized by the system. The header goes with it if the memory had holds that much. */
    method MoveBig(overPtr: int, total: nat, sys: int) returns (newPtr: int)
      requires Valid() && overPtr in mem && mem[overPtr] == InUse(BIG)
      requires NewRegion(k.regions - {overPtr - l.block()}, sys, total)
      modifies this`mem, this`nextPtr, this`prevPtr, this`k
      ensures newPtr > 0 && k.extent == (old(k.extent) - {overPtr - l.block()})[newPtr - l.block() := total]
      ensures total >= l.block() + l.overhead() ==> Valid() && Exchanged(l, old(mem), old(k.extent), mem, k.extent, overPtr, newPtr)
      ensures Room(l, mem, k.extent, newPtr) == if total >= l.block() + l.overhead() then total - l.block() - l.overhead() else 0
    {
      var bigBlockPtr := overPtr - l.block();
      newPtr := sys + l.block();
      BigLinks(l, nextf, mem, nextPtr, prevPtr, k, overPtr, bigBlockPtr);
      if total < l.block() + l.overhead() {
        k := k.(extent := (k.extent - {bigBlockPtr})[sys := total]);
        Splice(bigBlockPtr, sys);
        mem := mem - {overPtr, newPtr};
        return;
      }
      ghost var mem0, extent0, mem1 := mem, k.extent, (mem - {overPtr})[newPtr := InUse(BIG)];
      k := SpliceStep(l, nextf, mem, nextPtr, prevPtr, k, overPtr, bigBlockPtr, sys, total, newPtr, mem1);
      ExchangedBig(l, mem0, extent0, mem1, k.extent, overPtr, bigBlockPtr, sys, total, newPtr);
      Splice(bigBlockPtr, sys);
      mem := (mem - {overPtr})[newPtr := InUse(BIG)];
    }

    /** A big block gets `total` bytes from the system, which keeps the contents that fit, `kept` bytes. */
    method ResizeBig(overPtr: int, numBytes: nat, total: nat, sys: int, kept: int) returns (p: int)
      requires Valid() && overPtr in mem && mem[overPtr] == InUse(BIG) && kept == Min(Room(l, mem, k.extent, overPtr), numBytes)
      requires NewRegion(k.regions - {overPtr - l.block()}, sys, total)
      requires total < l.block() + l.overhead() < l.block() + l.overhead() + numBytes || total == l.block() + l.overhead() + numBytes
      modifies this`mem, this`nextPtr, this`prevPtr, this`bytes, this`k
      ensures p != NULL && (total >= l.block() + l.overhead() ==> Valid())
      ensures Resized(l, old(mem), old(k.extent), old(bytes), mem, k.extent, bytes, overPtr, p - l.overhead(), numBytes) <==>
        total >= l.block() + l.overhead()
      ensures total < l.block() + l.overhead() ==> Room(l, mem, k.extent, p - l.overhead()) == 0
    {
      ghost var mem0, k0, bytes0 := mem, k, bytes;
      var newPtr := MoveBig(overPtr, total, sys);
      p := newPtr + l.overhead();
      bytes := Copied(bytes, overPtr + l.overhead(), newPtr + l.overhead(), kept);
      if total >= l.block() + l.overhead() {
        CopiedResized(l, mem0, k0.extent, bytes0, nextf, mem, nextPtr, prevPtr, k, overPtr, newPtr, numBytes, bytes);
      } else {
        TooShort(l, mem0, k0.extent, bytes0, mem, k.extent, bytes, overPtr, newPtr, numBytes);
      }
    }

    /** `TclpRealloc` for a big block. */
    method ReallocBig(overPtr: int, numBytes: Uint, sys: int, kept: int) returns (p: int)
      requires Valid() && overPtr in mem && mem[overPtr] == InUse(BIG) && kept == Min(Room(l, mem, k.extent, overPtr), numBytes)
      requires sys != NULL ==> NewRegion(k.regions - {overPtr - l.block()}, sys, Sum(l, l.block() + l.overhead() + numBytes))
      modifies this`mem, this`nextPtr, this`prevPtr, this`bytes, this`k
      ensures p == NULL <==> sys == NULL
      ensures p == NULL ==> Valid() && mem == old(mem) && k == old(k) && bytes == old(bytes)
      ensures Honoured(l, InUse(BIG), numBytes) ==> Valid()
      ensures p != NULL ==>
        (Resized(l, old(mem), old(k.extent), old(bytes), mem, k.extent, bytes, overPtr, p - l.overhead(), numBytes) <==> Honoured(l, InUse(BIG), numBytes))
      ensures p != NULL && !Honoured(l, InUse(BIG), numBytes) ==> Room(l, mem, k.extent, p - l.overhead()) == 0
    {
      if sys == NULL {
        return NULL;
      }
      AskedIsEnough(l, numBytes);
      p := ResizeBig(overPtr, numBytes, Sum(l, l.block() + l.overhead() + numBytes), sys, kept);
    }

    /** Is a block of bucket i too small for these bytes, or more than twice too big? */
    method IsExpensive(i: nat, numBytes: Uint) returns (maxSize: nat, expensive: bool)
      ensures maxSize == Size(i) && (expensive <==> !Kept(l, i, numBytes))
    {
      maxSize := Size(i);
      expensive := false;
      var need := Sum(l, numBytes + l.overhead());
      if need > maxSize {
        expensive := true;
      } else if i > 0 && need < maxSize / 2 {
        expensive := true;
      }
      ghost var half := HalfSize(i);
    }

    /** What comes of a block of bucket i: it comes back itself exactly if it stays, and NULL only where no other could be
        had. A block stays if it fits and is at least half used. */
    ghost predicate Answered(oldPtr: int, i: nat, numBytes: Uint, refused: bool, p: int) {
      && (p == oldPtr <==> Kept(l, i, numBytes))
      && (p == NULL <==> !Kept(l, i, numBytes) && refused)
      && (numBytes + l.overhead() <= UINT_MAX ==>
        (p == oldPtr <==> numBytes + l.overhead() <= Size(i) <= 2 * (numBytes + l.overhead())))
    }

    /** `TclpRealloc` for a block of a bucket: it stays when it fits and is not less than half used, else it is copied.
        When the size comes round to 0 a smallest block stays, though it has room for nothing. */
    method ReallocSmall(oldPtr: int, numBytes: Uint, sys: int) returns (p: int)
      requires Valid() && oldPtr - l.overhead() in mem && mem[oldPtr - l.overhead()].InUse? && mem[oldPtr - l.overhead()].index != BIG
      requires oldPtr != NULL && (sys != NULL ==> NewRegion(k.regions, sys, Wanted(l, numBytes)))
      modifies this
      ensures Valid()
      ensures p == NULL ==> mem == old(mem) && k == old(k) && bytes == old(bytes)
      ensures p == NULL ==> sys == NULL || numBytes > UINT_MAX - l.overhead() - l.block()
      ensures Answered(oldPtr, old(mem[oldPtr - l.overhead()].index), numBytes, Refused(l, old(nextf), numBytes, sys), p)
      ensures p == oldPtr ==> mem == old(mem) && k == old(k) && bytes == old(bytes) && nextf == old(nextf)
      ensures !Honoured(l, old(mem[oldPtr - l.overhead()]), numBytes) ==>
        p == oldPtr && mem == old(mem) && k == old(k) && bytes == old(bytes) && Room(l, mem, k.extent, p - l.overhead()) == 0
      ensures p != NULL ==>
        (Resized(l, old(mem), old(k.extent), old(bytes), mem, k.extent, bytes, oldPtr - l.overhead(), p - l.overhead(), numBytes) <==>
        Honoured(l, old(mem[oldPtr - l.overhead()]), numBytes))
      ensures p != NULL ==> p - l.overhead() in mem && Tight(l, mem[p - l.overhead()], numBytes)
    {
      var overPtr := oldPtr - l.overhead();
      var i := mem[overPtr].index;
      IndexFrom(l, nextf, mem, nextPtr, prevPtr, k, overPtr);
      KeptHasRoom(l, i, numBytes);
      if numBytes + l.overhead() <= UINT_MAX {
        KeptMeans(l, i, numBytes);
      }
      var maxSize, expensive := IsExpensive(i, numBytes);
      if expensive {
        p := CopyOut(oldPtr, numBytes, maxSize - l.overhead(), sys);
      } else {
        p := oldPtr;
        if Honoured(l, mem[overPtr], numBytes) {
          InPlace(l, mem, k.extent, bytes, overPtr, numBytes);
        } else {
          TooShort(l, mem, k.extent, bytes, mem, k.extent, bytes, overPtr, overPtr, numBytes);
        }
      }
    }

    /** A new block for a block of a bucket, the contents copied, the old one freed. */
    method CopyOut(oldPtr: int, numBytes: Uint, room: int, sys: int) returns (p: int)
      requires Valid() && oldPtr - l.overhead() in mem && mem[oldPtr - l.overhead()].InUse? && oldPtr != NULL
      requires room == Room(l, mem, k.extent, oldPtr - l.overhead()) && (sys != NULL ==> NewRegion(k.regions, sys, Wanted(l, numBytes)))
      modifies this
      ensures Valid()
      ensures p == NULL <==> Refused(l, old(nextf), numBytes, sys)
      ensures p == NULL ==> mem == old(mem) && k == old(k) && bytes == old(bytes)
      ensures p != oldPtr
      ensures p != NULL ==> Resized(l, old(mem), old(k.extent), old(bytes), mem, k.extent, bytes, oldPtr - l.overhead(), p - l.overhead(), numBytes)
      ensures p != NULL ==> p - l.overhead() in mem && Tight(l, mem[p - l.overhead()], numBytes)
    {
      var overPtr := oldPtr - l.overhead();
      ghost var mem0, extent0, bytes0 := mem, k.extent, bytes;
      var newPtr := AllocTight(numBytes, sys);
      if newPtr == NULL {
        return NULL;
      }
      ghost var newHeader, mem1, extent1 := newPtr - l.overhead(), mem, k.extent;
      GivenKeeps(l, mem0, extent0, nextf, mem, nextPtr, prevPtr, k, overPtr, newHeader);
      var n := numBytes;
      if room < n {
        n := room;
      }
      MemCopy(newPtr, oldPtr, n);
      Free(oldPtr);
      CopiedOut(l, mem0, extent0, bytes0, mem1, extent1, nextf, mem, nextPtr, prevPtr, k, overPtr, newHeader, numBytes, bytes, oldPtr,
        newPtr, n);
      p := newPtr;
    }

    /** `TclpAlloc`, whose blocks are never more than twice the size needed. */
    method AllocTight(numBytes: Uint, sys: int) returns (p: int)
      requires Valid() && (sys != NULL ==> NewRegion(k.regions, sys, Wanted(l, numBytes)))
      modifies this`nextf, this`mem, this`nextPtr, this`prevPtr, this`k
      ensures Valid()
      ensures p == NULL ==> mem == old(mem) && k == old(k) && nextf == old(nextf)
      ensures p == NULL <==> Refused(l, old(nextf), numBytes, sys)
      ensures p != NULL ==> Given(l, old(mem), old(k.extent), mem, k.extent, p - l.overhead())
      ensures p != NULL ==> Room(l, mem, k.extent, p - l.overhead()) >= numBytes
      ensures p != NULL ==> p - l.overhead() in mem && Tight(l, mem[p - l.overhead()], numBytes)
    {
      p := Alloc(numBytes, sys);
      if p != NULL && mem[p - l.overhead()].index != BIG {
        LeastIsTight(l, mem[p - l.overhead()].index, numBytes);
      }
    }

    /** `TclpRealloc` for a block in use. */
    method ReallocUsed(oldPtr: int, numBytes: Uint, sys: int, kept: int) returns (p: int)
      requires Valid() && oldPtr != NULL && oldPtr - l.overhead() in mem && mem[oldPtr - l.overhead()].InUse?
      requires sys != NULL ==>
        if mem[oldPtr - l.overhead()].index == BIG
        then NewRegion(k.regions - {oldPtr - l.overhead() - l.block()}, sys, Sum(l, l.block() + l.overhead() + numBytes))
        else NewRegion(k.regions, sys, Wanted(l, numBytes))
      requires mem[oldPtr - l.overhead()].index == BIG ==> kept == Min(Room(l, mem, k.extent, oldPtr - l.overhead()), numBytes)
      modifies this
      ensures p == NULL || old(mem[oldPtr - l.overhead()].index) != BIG || Honoured(l, InUse(BIG), numBytes) ==> Valid()
      ensures p == NULL ==> sys == NULL || numBytes > UINT_MAX - l.overhead() - l.block()
      ensures old(mem[oldPtr - l.overhead()].index) == BIG ==> (p == NULL <==> sys == NULL)
      ensures old(mem[oldPtr - l.overhead()].index) != BIG ==>
        && Answered(oldPtr, old(mem[oldPtr - l.overhead()].index), numBytes, Refused(l, old(nextf), numBytes, sys), p)
        && (p == oldPtr ==> mem == old(mem) && k == old(k) && bytes == old(bytes))
      ensures p == NULL ==> mem == old(mem) && k == old(k) && bytes == old(bytes)
      ensures p != NULL ==>
        (Resized(l, old(mem), old(k.extent), old(bytes), mem, k.extent, bytes, oldPtr - l.overhead(), p - l.overhead(), numBytes) <==>
        Honoured(l, old(mem[oldPtr - l.overhead()]), numBytes))
      ensures p != NULL && !Honoured(l, old(mem[oldPtr - l.overhead()]), numBytes) ==> Room(l, mem, k.extent, p - l.overhead()) == 0
      ensures !Honoured(l, old(mem[oldPtr - l.overhead()]), numBytes) && old(mem[oldPtr - l.overhead()].index) != BIG ==>
        p == oldPtr && mem == old(mem) && k == old(k) && bytes == old(bytes)
    {
      var overPtr := oldPtr - l.overhead();
      if mem[overPtr].index == BIG {
        p := ReallocBig(overPtr, numBytes, sys, kept);
      } else {
        p := ReallocSmall(oldPtr, numBytes, sys);
      }
    }

    /** `TclpRealloc`; for NULL it allocates, for a block already free it fails. The block returned has the room asked for
        exactly when the size is honoured; a big one too short for its own header leaves nothing to rely on. */
    method Realloc(oldPtr: int, numBytes: Uint, sys: int, kept: int) returns (p: int)
      requires Valid() && (oldPtr != NULL ==> oldPtr - l.overhead() in mem)
      requires sys != NULL ==>
        if oldPtr != NULL && mem[oldPtr - l.overhead()] == InUse(BIG)
        then NewRegion(k.regions - {oldPtr - l.overhead() - l.block()}, sys, Sum(l, l.block() + l.overhead() + numBytes))
        else NewRegion(k.regions, sys, Wanted(l, numBytes))
      requires oldPtr != NULL && mem[oldPtr - l.overhead()] == InUse(BIG) ==>
        kept == Min(Room(l, mem, k.extent, oldPtr - l.overhead()), numBytes)
      modifies this
      ensures p == NULL || oldPtr == NULL || old(mem[oldPtr - l.overhead()]) != InUse(BIG) || Honoured(l, InUse(BIG), numBytes) ==> Valid()
      ensures p == NULL ==> mem == old(mem) && k == old(k) && bytes == old(bytes)
      ensures p != NULL && oldPtr == NULL ==> Given(l, old(mem), old(k.extent), mem, k.extent, p - l.overhead()) && bytes == old(bytes)
      ensures p != NULL && oldPtr == NULL ==> Room(l, mem, k.extent, p - l.overhead()) >= numBytes
      ensures p == NULL ==> sys == NULL || numBytes > UINT_MAX - l.overhead() - l.block() || (oldPtr != NULL && oldPtr - l.overhead() !in Live(old(mem)))
      ensures oldPtr == NULL ==> (p == NULL <==> Refused(l, old(nextf), numBytes, sys))
      ensures oldPtr != NULL && oldPtr - l.overhead() !in Live(old(mem)) ==> p == NULL
      ensures oldPtr != NULL && old(mem[oldPtr - l.overhead()]) == InUse(BIG) ==> (p == NULL <==> sys == NULL)
      ensures oldPtr != NULL && old(mem[oldPtr - l.overhead()].InUse?) && old(mem[oldPtr - l.overhead()].index) != BIG ==>
        && Answered(oldPtr, old(mem[oldPtr - l.overhead()].index), numBytes, Refused(l, old(nextf), numBytes, sys), p)
        && (p == oldPtr ==> mem == old(mem) && k == old(k) && bytes == old(bytes))
      ensures p != NULL && oldPtr != NULL ==>
        (Resized(l, old(mem), old(k.extent), old(bytes), mem, k.extent, bytes, oldPtr - l.overhead(), p - l.overhead(), numBytes) <==>
        Honoured(l, old(mem[oldPtr - l.overhead()]), numBytes))
      ensures p != NULL && oldPtr != NULL && !Honoured(l, old(mem[oldPtr - l.overhead()]), numBytes) ==> Room(l, mem, k.extent, p - l.overhead()) == 0
      ensures oldPtr != NULL && !Honoured(l, old(mem[oldPtr - l.overhead()]), numBytes) && old(mem[oldPtr - l.overhead()].index) != BIG ==>
        p == oldPtr && mem == old(mem) && k == old(k) && bytes == old(bytes)
    {
      if oldPtr == NULL {
        p := Alloc(numBytes, sys);
        return;
      }
      var overPtr := oldPtr - l.overhead();
      if mem[overPtr].Next? {
        return NULL;
      }
      p := ReallocUsed(oldPtr, numBytes, sys, kept);
    }

    /** The memory of blocks in use does not overlap. */
    lemma BlocksApart(g: int, h: int)
      requires Valid() && g in Live(mem) && h in Live(mem) && g != h
      ensures Apart(g, l.overhead() + Room(l, mem, k.extent, g), h, l.overhead() + Room(l, mem, k.extent, h))
    {
      LiveApart(l, nextf, mem, nextPtr, prevPtr, k, g, h);
    }

    /** Nor does that of any two blocks, in use or free. */
    lemma AreasApart(a: int, b: int)
      requires Valid() && a in k.extent && b in k.extent && a != b
      ensures Apart(a, k.extent[a], b, k.extent[b])
    {
      Unseal(l, nextf, mem, nextPtr, prevPtr, k);
      ExtentsApart(k.extent, a, b);
    }

    /** A carved block, in use or free, is an area of its bucket's size. */
    lemma CarvedArea(h: int)
      requires Valid() && h in k.home
      ensures h in k.extent && k.extent[h] == Size(k.home[h]) && h in mem
      ensures mem[h].InUse? ==> mem[h].index == k.home[h]
    {
      Unseal(l, nextf, mem, nextPtr, prevPtr, k);
      HomeHeader(l, mem, k.home, k.extent, h);
      if mem[h].InUse? {
        LiveHeader(l, nextf, mem, k, h);
      }
    }

    /** In every bucket the blocks in use and the free ones are those carved by `MoreCore`. */
    lemma Conserved(b: nat)
      requires Valid() && b < l.Buckets()
      ensures |LiveIn(mem, BlocksOf(k.home, b))| + |k.free[b]| == k.carved[b]
    {
      Unseal(l, nextf, mem, nextPtr, prevPtr, k);
      assert Bucket(mem, nextf[b], k.free[b], BlocksOf(k.home, b), b) by {
        assert Glance(0);
      }
      LiveAndFree(mem, nextf[b], k.free[b], BlocksOf(k.home, b), b);
      CarvedCount(k.home, k.carved, b);
    }
  }

  /** With 4-byte pointers a block for no bytes, resized to 8 bytes less than all the address space, is returned as it
      is. */
  method RoundedToNothing(sys: int) returns (a: Allocator, p: int)
    requires sys > 0
    ensures a.Valid() && a.l == Layout(false, false) && p != NULL && Room(a.l, a.mem, a.k.extent, p - a.l.overhead()) == 0
  {
    a := new Allocator(Layout(false, false));
    var q := a.Alloc(0, sys);
    OnlyFirst(a.l, a.mem[q - a.l.overhead()].index);
    p := a.Realloc(q, 0xFFFF_FFF8, NULL, 0);
  }

  lemma OnlyFirst(l: Layout, b: nat)
    requires Least(l, b, 0)
    ensures b == l.First()
  {
    FirstSize(l);
  }

  lemma CarvedCount(home: map<int, nat>, carved: seq<nat>, b: nat)
    requires Counted(home, carved) && b < |carved|
    ensures |BlocksOf(home, b)| == carved[b]
  {
    assert Look(0);
  }

  /** What is asked of the system for a number of bytes, if anything. */
  function Wanted(l: Layout, numBytes: nat): nat {
    if numBytes >= l.MaxMalloc() - l.overhead() then l.block() + l.overhead() + numBytes else l.block() + l.MaxMalloc()
  }

  lemma LiveIsPositive(l: Layout, nextf: seq<int>, mem: Memory, nextPtr: map<int, int>, prevPtr: map<int, int>, k: Books, h: int)
    requires Sound(l, nextf, mem, nextPtr, prevPtr, k) && h in Live(mem)
    ensures h > 0
  {
    Unseal(l, nextf, mem, nextPtr, prevPtr, k);
    LiveHeader(l, nextf, mem, k, h);
  }

  lemma HalfSize(i: nat) returns (half: nat)
    ensures i == 0 ==> Size(i) == 8
    ensures Size(i) == 2 * half
  {
    assert Pow2(3) == 8;
    half := Pow2(i + 2);
  }

  /** The last bucket's blocks are the size of a chunk. */
  lemma LastSize(l: Layout, b: nat)
    requires b < l.Buckets()
    ensures Size(b) <= l.MaxMalloc() && (Size(b) < l.MaxMalloc() ==> b + 1 < l.Buckets())
  {
    var n: nat := l.Buckets() - 1;
    assert Size(n) == l.MaxMalloc();
    if b < n {
      SizesGrow(b, n);
    }
  }
}
