/** The handler list of tclAsync.c: handlers linked by `nextPtr`, the flags of a thread, and the critical sections of
    its procedures, each a step of the protocol. Handlers are addressed by numbers, given in the order of creation. */
module Async {
  import opened AsyncProtocol
  import opened Folding

  const NULL := -1

  datatype AsyncHandler = AsyncHandler(ready: bool, nextPtr: int, originThrdId: int)

  type Memory = map<int, AsyncHandler>

  /** The handlers of mem were there before, made by the same threads. */
  predicate SameOrigins(mem0: Memory, mem: Memory) {
    forall h | h in mem :: h in mem0 && mem[h].originThrdId == mem0[h].originThrdId
  }

  /** What follows handler i of the list. */
  function After(listed: seq<nat>, i: nat): int {
    if i + 1 < |listed| then listed[i + 1] else NULL
  }

  /** The handlers in memory are those listed, in order of creation, linked from the first to the last. */
  ghost predicate Linked(mem: Memory, firstHandler: int, lastHandler: int, listed: seq<nat>, ready: set<nat>) {
    forall u {:trigger Look(u)} :: Look(u) ==>
    && Increasing(listed)
    && (forall h :: h in listed ==> h in mem)
    && (forall i {:trigger After(listed, i)} :: 0 <= i < |listed| ==> mem[listed[i]].nextPtr == After(listed, i))
    && (forall h :: h in mem ==> h >= 0 && h in listed && (mem[h].ready <==> h in ready))
    && firstHandler == (if listed == [] then NULL else listed[0])
    && (listed != [] ==> lastHandler == listed[|listed| - 1])
  }

  ghost predicate Sound(s: State) {
    forall u {:trigger Look(u)} :: Look(u) ==> Inv(s)
  }

  lemma SoundNext(s: State, e: Event)
    requires Sound(s) && Enabled(s, e)
    ensures Sound(Next(s, e))
  {
    assert Look(0);
    InvKept(s, e);
  }

  lemma FirstLinked(mem: Memory, first: int, last: int, listed: seq<nat>, ready: set<nat>, id: nat, h: AsyncHandler)
    requires Linked(mem, first, last, listed, ready) && first == NULL && id !in ready && !h.ready && h.nextPtr == NULL
    ensures Linked(mem[id := h], id, id, listed + [id], ready)
  {
    assert Look(0);
  }

  lemma LastLinked(mem: Memory, first: int, last: int, listed: seq<nat>, ready: set<nat>, id: nat, h: AsyncHandler)
    requires Linked(mem, first, last, listed, ready) && first != NULL && id !in ready && !h.ready && h.nextPtr == NULL
    requires forall g :: g in listed ==> g < id
    ensures last in mem && last != id
    ensures Linked(mem[id := h][last := mem[last].(nextPtr := id)], first, id, listed + [id], ready)
  {
    assert Look(0);
    var k: nat := |listed| - 1;
    assert listed[k] == last;
    var mem' := mem[id := h][last := mem[last].(nextPtr := id)];
    forall i | 0 <= i < |listed| + 1
      ensures (listed + [id])[i] in mem' && mem'[(listed + [id])[i]].nextPtr == After(listed + [id], i)
    {
      if i < k {
        assert listed[i] != last && listed[i] in listed;
        assert mem[listed[i]].nextPtr == After(listed, i);
      }
    }
  }

  lemma FlagLinked(mem: Memory, first: int, last: int, listed: seq<nat>, ready: set<nat>, h: nat, flag: bool)
    requires Linked(mem, first, last, listed, ready) && h in mem
    ensures Linked(mem[h := mem[h].(ready := flag)], first, last, listed, if flag then ready + {h} else ready - {h})
  {
    assert Look(0);
    var mem', ready' := mem[h := mem[h].(ready := flag)], if flag then ready + {h} else ready - {h};
    assert forall g :: g in mem ==> mem'[g].nextPtr == mem[g].nextPtr;
    assert forall g :: g in mem' ==> g in mem && (mem'[g].ready <==> g in ready');
  }

  /** Memory with handler i unlinked from the one before it, if any. */
  function Relinked(mem: Memory, listed: seq<nat>, i: nat): Memory
    requires i < |listed| && forall h :: h in listed ==> h in mem
  {
    if i == 0 then mem else mem[listed[i - 1] := mem[listed[i - 1]].(nextPtr := mem[listed[i]].nextPtr)]
  }

  lemma Members(mem: Memory, first: int, last: int, listed: seq<nat>, ready: set<nat>)
    requires Linked(mem, first, last, listed, ready)
    ensures forall h :: h in listed ==> h in mem
    ensures first == if listed == [] then NULL else listed[0]
    ensures Increasing(listed)
  {
    assert Look(0);
  }

  /** The links after handler i is gone. */
  lemma LinksWithout(mem: Memory, first: int, last: int, listed: seq<nat>, ready: set<nat>, i: nat, k: nat)
    requires Linked(mem, first, last, listed, ready) && i < |listed| && k < |listed| - 1
    requires forall h :: h in listed ==> h in mem
    ensures var listed' := listed[..i] + listed[i + 1..];
      listed'[k] in mem && Relinked(mem, listed, i)[listed'[k]].nextPtr == After(listed', k)
  {
    assert Look(0);
    var listed' := listed[..i] + listed[i + 1..];
    var o := if k < i then k else k + 1;
    assert mem[listed[i]].nextPtr == After(listed, i);
    assert listed'[k] == listed[o] && listed[o] in listed && mem[listed[o]].nextPtr == After(listed, o);
    assert i > 0 && k != i - 1 ==> listed[o] != listed[i - 1];
  }

  /** The handlers after handler i is gone. */
  lemma MembersWithout(mem: Memory, first: int, last: int, listed: seq<nat>, ready: set<nat>, i: nat, mem': Memory, listed': seq<nat>)
    requires Linked(mem, first, last, listed, ready) && i < |listed|
    requires forall h :: h in listed ==> h in mem
    requires mem' == Relinked(mem, listed, i) - {listed[i]} && listed' == listed[..i] + listed[i + 1..]
    ensures Increasing(listed') && forall h :: h in listed' ==> h in mem'
    ensures forall h :: h in mem' ==> h >= 0 && h in listed' && (mem'[h].ready <==> h in ready - {listed[i]})
  {
    assert Look(0);
    DropOne(listed, i);
    assert forall h :: h in mem' ==> h in mem && h != listed[i] && mem'[h].ready == mem[h].ready;
  }

  /** Handler i unlinked and freed. */
  lemma Unlinked(mem: Memory, first: int, last: int, listed: seq<nat>, ready: set<nat>, i: nat, first': int, last': int, mem': Memory,
                 listed': seq<nat>)
    requires Linked(mem, first, last, listed, ready) && i < |listed|
    requires forall h :: h in listed ==> h in mem
    requires first' == if i == 0 then After(listed, 0) else first
    requires last' == if listed[i] == last then (if i == 0 then listed[0] else listed[i - 1]) else last
    requires mem' == Relinked(mem, listed, i) - {listed[i]} && listed' == listed[..i] + listed[i + 1..]
    ensures Linked(mem', first', last', listed', ready - {listed[i]})
  {
    MembersWithout(mem, first, last, listed, ready, i, mem', listed');
    forall k {:trigger After(listed', k)} | 0 <= k < |listed'|
      ensures listed'[k] in mem' && mem'[listed'[k]].nextPtr == After(listed', k)
    {
      LinksWithout(mem, first, last, listed, ready, i, k);
      assert listed'[k] in listed';
    }
    Ends(mem, first, last, listed, ready, i);
  }

  lemma Ends(mem: Memory, first: int, last: int, listed: seq<nat>, ready: set<nat>, i: nat)
    requires Linked(mem, first, last, listed, ready) && i < |listed|
    ensures first == listed[0] && last == listed[|listed| - 1] && (listed[i] == last <==> i == |listed| - 1) && (listed[i] == first <==> i == 0)
  {
    assert Look(0);
  }

  /** A list of increasing numbers without one of them. */
  lemma DropOne(listed: seq<nat>, i: nat)
    requires Increasing(listed) && i < |listed|
    ensures var dropped := listed[..i] + listed[i + 1..];
      && Increasing(dropped)
      && (forall h :: h in dropped <==> h in listed && h != listed[i])
      && (forall k :: 0 <= k < |dropped| ==> dropped[k] == listed[if k < i then k else k + 1])
  {
    var dropped := listed[..i] + listed[i + 1..];
    forall h | h in listed && h != listed[i]
      ensures h in dropped
    {
      var o :| 0 <= o < |listed| && listed[o] == h;
      assert dropped[if o < i then o else o - 1] == h;
    }
  }

  lemma NewId(s: State)
    requires Sound(s)
    ensures s.created !in s.ready && forall g :: g in s.listed ==> g < s.created
  {
    assert Look(0);
  }

  lemma InMemory(mem: Memory, first: int, last: int, listed: seq<nat>, ready: set<nat>, h: int)
    requires Linked(mem, first, last, listed, ready)
    ensures h in mem <==> h >= 0 && h in listed
  {
    assert Look(0);
  }

  lemma {:induction false} PickAt(listed: seq<nat>, ready: set<nat>, i: nat)
    requires i < |listed| && listed[i] in ready && forall j :: 0 <= j < i ==> listed[j] !in ready
    ensures Pick(listed, ready) == Some(listed[i])
  {
    if i > 0 {
      PickAt(listed[1..], ready, i - 1);
    }
  }

  lemma {:induction false} WithoutAt(listed: seq<nat>, i: nat)
    requires i < |listed| && Increasing(listed)
    ensures Without(listed, listed[i]) == listed[..i] + listed[i + 1..]
  {
    if i > 0 {
      WithoutAt(listed[1..], i - 1);
      assert listed[1..][..i - 1] == listed[1..i] && listed[1..][i..] == listed[i + 1..];
    } else {
      WithoutNone(listed[1..], listed[0]);
    }
  }

  lemma {:induction false} WithoutNone(listed: seq<nat>, h: nat)
    requires h !in listed
    ensures Without(listed, h) == listed
  {
    if listed != [] {
      WithoutNone(listed[1..], h);
    }
  }

  lemma Cell(mem: Memory, first: int, last: int, listed: seq<nat>, ready: set<nat>, i: nat)
    requires Linked(mem, first, last, listed, ready) && i < |listed|
    ensures listed[i] in mem && mem[listed[i]].nextPtr == After(listed, i) && (mem[listed[i]].ready <==> listed[i] in ready)
  {
    assert Look(0);
  }

  /** What the steps of the unlinking do. */
  lemma Unlinking(mem: Memory, first: int, last: int, listed: seq<nat>, ready: set<nat>, i: nat, listed': seq<nat>, ready': set<nat>)
    requires Linked(mem, first, last, listed, ready) && i < |listed|
    requires listed' == Without(listed, listed[i]) && ready' == ready - {listed[i]}
    ensures listed[i] in mem && (listed[i] == first <==> i == 0)
    ensures i == 0 ==> Linked(mem - {listed[i]}, mem[listed[i]].nextPtr, if listed[i] == last then listed[i] else last, listed', ready')
    ensures i > 0 ==> listed[i - 1] in mem && Linked(mem[listed[i - 1] := mem[listed[i - 1]].(nextPtr := mem[listed[i]].nextPtr)] - {listed[i]},
      first, if listed[i] == last then listed[i - 1] else last, listed', ready')
  {
    Members(mem, first, last, listed, ready);
    Cell(mem, first, last, listed, ready, i);
    Ends(mem, first, last, listed, ready, i);
    WithoutAt(listed, i);
    var first', last' := if i == 0 then After(listed, 0) else first, if listed[i] == last then (if i == 0 then listed[0] else listed[i - 1]) else last;
    Unlinked(mem, first, last, listed, ready, i, first', last', Relinked(mem, listed, i) - {listed[i]}, listed');
  }

  class ThreadSpecificData {
    var firstHandler: int
    var lastHandler: int
    var asyncReady: bool
    var asyncActive: bool
    var mem: Memory
    /** The state of the protocol. */
    ghost var s: State

    constructor ()
      ensures Valid() && s == INITIAL
    {
      firstHandler, lastHandler := NULL, NULL;
      asyncReady, asyncActive := false, false;
      mem, s := map[], INITIAL;
    }

    ghost predicate Valid()
      reads this
    {
      Linked(mem, firstHandler, lastHandler, s.listed, s.ready) && Sound(s) && asyncReady == s.asyncReady && asyncActive == s.asyncActive
    }

    /** `Tcl_AsyncCreate`; `asyncPtr` is the address of the new handler. */
    method Create(thread: int, asyncPtr: nat)
      requires Valid() && asyncPtr == s.created
      modifies this
      ensures Valid() && s == Next(old(s), AsyncProtocol.Created)
      ensures mem.Keys == old(mem).Keys + {asyncPtr} && asyncPtr !in old(mem) && mem[asyncPtr].originThrdId == thread
      ensures SameOrigins(old(mem), mem - {asyncPtr})
    {
      NewId(s);
      InMemory(mem, firstHandler, lastHandler, s.listed, s.ready, asyncPtr);
      SoundNext(s, AsyncProtocol.Created);
      if firstHandler == NULL {
        FirstLinked(mem, firstHandler, lastHandler, s.listed, s.ready, asyncPtr, AsyncHandler(false, NULL, thread));
      } else {
        LastLinked(mem, firstHandler, lastHandler, s.listed, s.ready, asyncPtr, AsyncHandler(false, NULL, thread));
      }
      mem := mem[asyncPtr := AsyncHandler(false, NULL, thread)];
      if firstHandler == NULL {
        firstHandler := asyncPtr;
      } else {
        mem := mem[lastHandler := mem[lastHandler].(nextPtr := asyncPtr)];
      }
      lastHandler := asyncPtr;
      s := Next(s, AsyncProtocol.Created);
    }

    /** `Tcl_AsyncMark`; says whether the owner is alerted. */
    method Mark(token: nat) returns (alert: bool)
      requires Valid() && token in mem
      modifies this
      ensures Valid() && alert == !asyncActive
      ensures token in old(s).listed && s == Next(old(s), Marked(token))
      ensures mem.Keys == old(mem).Keys && SameOrigins(old(mem), mem)
      ensures mem[token].ready && (asyncReady || asyncActive)
      ensures forall h | h in mem && h != token :: mem[h] == old(mem)[h]
    {
      InMemory(mem, firstHandler, lastHandler, s.listed, s.ready, token);
      SoundNext(s, Marked(token));
      FlagLinked(mem, firstHandler, lastHandler, s.listed, s.ready, token, true);
      mem := mem[token := mem[token].(ready := true)];
      alert := false;
      if !asyncActive {
        asyncReady := true;
        alert := true;
      }
      s := Next(s, Marked(token));
    }

    /** The scan for a ready handler from the start of the list. */
    method NextReady() returns (asyncPtr: int)
      requires Linked(mem, firstHandler, lastHandler, s.listed, s.ready)
      ensures if asyncPtr == NULL then Pick(s.listed, s.ready) == None else asyncPtr in mem && asyncPtr >= 0 && Pick(s.listed, s.ready) == Some(asyncPtr)
    {
      Members(mem, firstHandler, lastHandler, s.listed, s.ready);
      asyncPtr := firstHandler;
      ghost var i := 0;
      while asyncPtr != NULL
        invariant 0 <= i <= |s.listed| && asyncPtr == if i < |s.listed| then s.listed[i] else NULL
        invariant forall j :: 0 <= j < i ==> s.listed[j] !in s.ready
        decreases |s.listed| - i
      {
        Cell(mem, firstHandler, lastHandler, s.listed, s.ready, i);
        if mem[asyncPtr].ready {
          PickAt(s.listed, s.ready, i);
          return;
        }
        asyncPtr := mem[asyncPtr].nextPtr;
        i := i + 1;
      }
    }

    /** `Tcl_AsyncInvoke` from its start: the handler to call, or nothing when it returns at once. */
    method InvokeStart() returns (asyncPtr: int)
      requires Valid()
      modifies this
      ensures Valid() && s == Next(old(s), Invoked)
      ensures if asyncPtr == NULL then Ran(old(s), Invoked) == None else asyncPtr >= 0 && Ran(old(s), Invoked) == Some(asyncPtr)
      ensures mem.Keys == old(mem).Keys && SameOrigins(old(mem), mem)
      ensures asyncPtr != NULL ==> asyncPtr in mem && old(mem)[asyncPtr].ready && !mem[asyncPtr].ready && asyncActive
      ensures forall h | h in mem && h != asyncPtr :: mem[h] == old(mem)[h]
    {
      SoundNext(s, Invoked);
      if !asyncReady {
        return NULL;
      }
      asyncReady := false;
      asyncActive := true;
      asyncPtr := NextReady();
      if asyncPtr == NULL {
        asyncActive := false;
      } else {
        FlagLinked(mem, firstHandler, lastHandler, s.listed, s.ready, asyncPtr, false);
        mem := mem[asyncPtr := mem[asyncPtr].(ready := false)];
      }
      s := Next(s, Invoked);
    }

    /** `Tcl_AsyncInvoke` after a callback: the next handler to call, or nothing when it returns. */
    method InvokeResume() returns (asyncPtr: int)
      requires Valid() && s.running != []
      modifies this
      ensures Valid() && s == Next(old(s), Returned)
      ensures if asyncPtr == NULL then Ran(old(s), Returned) == None else asyncPtr >= 0 && Ran(old(s), Returned) == Some(asyncPtr)
      ensures mem.Keys == old(mem).Keys && SameOrigins(old(mem), mem)
      ensures asyncPtr != NULL ==> asyncPtr in mem && old(mem)[asyncPtr].ready && !mem[asyncPtr].ready && asyncActive
      ensures forall h | h in mem && h != asyncPtr :: mem[h] == old(mem)[h]
    {
      SoundNext(s, Returned);
      asyncPtr := NextReady();
      if asyncPtr == NULL {
        asyncActive := false;
      } else {
        FlagLinked(mem, firstHandler, lastHandler, s.listed, s.ready, asyncPtr, false);
        mem := mem[asyncPtr := mem[asyncPtr].(ready := false)];
      }
      s := Next(s, Returned);
    }

    /** The scan of `Tcl_AsyncDelete` for a handler and the one before it. */
    method Find(asyncPtr: nat) returns (found: bool, prevPtr: int, ghost i: nat)
      requires Linked(mem, firstHandler, lastHandler, s.listed, s.ready) && s.listed != []
      ensures found <==> asyncPtr in s.listed
      ensures found ==> i < |s.listed| && s.listed[i] == asyncPtr && prevPtr == if i == 0 then asyncPtr else s.listed[i - 1]
    {
      Members(mem, firstHandler, lastHandler, s.listed, s.ready);
      prevPtr := firstHandler;
      var thisPtr := firstHandler;
      i := 0;
      while thisPtr != NULL && thisPtr != asyncPtr
        invariant 0 <= i <= |s.listed| && thisPtr == if i < |s.listed| then s.listed[i] else NULL
        invariant prevPtr == s.listed[if i == 0 then 0 else i - 1]
        invariant asyncPtr !in s.listed[..i]
        decreases |s.listed| - i
      {
        Cell(mem, firstHandler, lastHandler, s.listed, s.ready, i);
        prevPtr := thisPtr;
        thisPtr := mem[thisPtr].nextPtr;
        i := i + 1;
      }
      found := thisPtr != NULL;
      assert !found ==> s.listed[..i] == s.listed;
    }

    /** Taking a handler out of the list; the last one is followed by none. */
    method Unlink(asyncPtr: nat, prevPtr: int, ghost i: nat, ghost after: State)
      requires Linked(mem, firstHandler, lastHandler, s.listed, s.ready) && i < |s.listed| && s.listed[i] == asyncPtr
      requires prevPtr == if i == 0 then asyncPtr else s.listed[i - 1]
      requires after.listed == Without(s.listed, asyncPtr) && after.ready == s.ready - {asyncPtr}
      modifies this`firstHandler, this`lastHandler, this`mem
      ensures Linked(mem, firstHandler, lastHandler, after.listed, after.ready)
      ensures mem.Keys == old(mem).Keys - {asyncPtr} && SameOrigins(old(mem), mem)
    {
      Unlinking(mem, firstHandler, lastHandler, s.listed, s.ready, i, after.listed, after.ready);
      if asyncPtr == firstHandler {
        firstHandler := mem[asyncPtr].nextPtr;
      } else {
        mem := mem[prevPtr := mem[prevPtr].(nextPtr := mem[asyncPtr].nextPtr)];
      }
      if asyncPtr == lastHandler {
        lastHandler := prevPtr;
      }
      mem := mem - {asyncPtr};
    }

    /** `Tcl_AsyncDelete`; it panics only for a thread other than the creator's. A handler not yet deleted is listed,
        so the list is not empty and the scan finds it. */
    method Delete(asyncPtr: nat, thread: int) returns (panic: bool)
      requires Valid() && asyncPtr in mem
      modifies this
      ensures Valid() && (panic <==> old(mem)[asyncPtr].originThrdId != thread)
      ensures panic ==> s == old(s) && mem == old(mem)
      ensures !panic ==> asyncPtr in old(s).listed && s == Next(old(s), Deleted(asyncPtr))
      ensures !panic ==> mem.Keys == old(mem).Keys - {asyncPtr} && SameOrigins(old(mem), mem)
    {
      if mem[asyncPtr].originThrdId != thread {
        return true;
      }
      InMemory(mem, firstHandler, lastHandler, s.listed, s.ready, asyncPtr);
      Members(mem, firstHandler, lastHandler, s.listed, s.ready);
      SoundNext(s, Deleted(asyncPtr));
      var found, prevPtr, i := Find(asyncPtr);
      if !found {
        assert false;
      }
      Unlink(asyncPtr, prevPtr, i, Next(s, Deleted(asyncPtr)));
      s := Next(s, Deleted(asyncPtr));
      panic := false;
    }
  }
}
