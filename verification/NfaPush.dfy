/** Moving forward constraints toward the end of an NFA (regc_nfa.c): `push`, and the loops that turn the constraints
    that have arrived at the ends into colors. */
module NfaPush {
  import opened Nets
  import opened NetRewrites
  import opened Nfas
  import opened NfaConstraints
  import opened Folding

  ghost predicate Pushable(g: Net) {
    Shaped(g) && DollarsKept(g) && NoEmpties(g)
  }

  lemma FewerPushable(g: Net, h: Net)
    requires SameEnds(g, h) && h.arcs <= g.arcs && Pushable(g)
    ensures Pushable(h)
  {
    Fewer(g, h);
    DerivedKeeps(g, h);
  }

  /** A circular constraint at the destination of con. */
  predicate CircularTo(con: Arc, a: Arc) {
    a.from == a.to == con.to && IsConstraint(a.kind)
  }

  /** con is the last inarc of its destination, circular constraints aside. */
  ghost predicate LastIn(arcs: set<Arc>, con: Arc) {
    forall a | a in arcs && a.to == con.to :: a == con || CircularTo(con, a)
  }

  /** An arc made of con and outarc a of its destination: a starts before the destination where it makes con true; where
      the two can pass each other a comes first and then con, by way of a state that is not one of these. */
  ghost predicate MadeAheadOf(states: seq<nat>, con: Arc, a: Arc, b: Arc)
    requires Forward(con.kind)
  {
    && a.kind != EMPTY
    && match Combine(con, a)
       case INCOMPATIBLE => false
       case SATISFIED => b == a.(from := con.from)
       case COMPATIBLE =>
         || (b.from !in states && b == con.(from := b.from, to := a.to))
         || (b.to !in states && b == a.(from := con.from, to := b.to))
  }

  ghost predicate MadeAhead(states: seq<nat>, arcs: set<Arc>, con: Arc, b: Arc)
    requires Forward(con.kind)
  {
    exists a :: a in arcs && a.from == con.to && !CircularTo(con, a) && MadeAheadOf(states, con, a, b)
  }

  /** Where outarc a of con's destination was, all it comes to past con is there now. */
  ghost predicate PushedPast(states: seq<nat>, arcs: set<Arc>, con: Arc, a: Arc)
    requires Forward(con.kind)
  {
    && a.kind != EMPTY
    && match Combine(con, a)
       case INCOMPATIBLE => true
       case SATISFIED => a.(from := con.from) in arcs
       case COMPATIBLE => exists z :: z !in states && con.(from := z, to := a.to) in arcs && a.(from := con.from, to := z) in arcs
  }

  /** What pushing con past its destination makes of the arcs. */
  ghost predicate Pushed(states: seq<nat>, arcs0: set<Arc>, arcs: set<Arc>, con: Arc)
    requires Forward(con.kind)
  {
    && con !in arcs
    && (forall a | a in arcs :: !CircularTo(con, a))
    && (forall a | a in arcs0 && a != con && !CircularTo(con, a) && (a.from != con.to || !LastIn(arcs0, con)) :: a in arcs)
    && (forall b | b in arcs && b !in arcs0 :: MadeAhead(states, arcs0, con, b))
    && (forall a | a in arcs0 && a.from == con.to && !CircularTo(con, a) :: PushedPast(states, arcs, con, a))
  }

  /** Forward constraints that come have the label of con and lead where outarcs of its destination do. */
  lemma PushedForward(states: seq<nat>, arcs0: set<Arc>, arcs: set<Arc>, con: Arc, b: Arc)
    requires Forward(con.kind) && Pushed(states, arcs0, arcs, con) && b in arcs && b !in arcs0 && Forward(b.kind)
    ensures b.kind == con.kind && b.co == con.co && exists a :: a in arcs0 && a.from == con.to && a.to == b.to
  {
    var a :| a in arcs0 && a.from == con.to && !CircularTo(con, a) && MadeAheadOf(states, con, a, b);
  }

  /** Of the arcs circular constraints at con's destination have gone. */
  ghost predicate UncircledTo(arcs0: set<Arc>, arcs: set<Arc>, con: Arc) {
    && con in arcs && arcs <= arcs0
    && (forall a | a in arcs0 && a !in arcs :: CircularTo(con, a))
    && (forall a | a in arcs :: !CircularTo(con, a))
  }

  /** Get rid of circular constraints among the inarcs of con's destination. */
  method DropCircularIns(n: Nfa, con: Arc)
    requires n.Valid() && con in n.arcs && con.from != con.to && con.to in n.states && !n.Flag(con.to)
    modifies n`outs, n`ins, n`arcs, n`colors
    ensures n.Valid() && UncircledTo(old(n.arcs), n.arcs, con)
    ensures SameLanguage(old(n.G()), n.G())
    ensures NothingNew(old(n.arcs), old(n.tmp), n.arcs, n.tmp)
  {
    n.Ins(con.to);
    var chain := n.ins[con.to];
    for i := 0 to |chain|
      invariant n.Valid() && n.arcs <= old(n.arcs)
      invariant forall a | a in old(n.arcs) && a !in n.arcs :: CircularTo(con, a) && a in chain[..i]
      invariant forall a | a in chain[..i] && a in n.arcs :: !CircularTo(con, a)
      invariant SameLanguage(old(n.G()), n.G())
      invariant NothingNew(old(n.arcs), old(n.tmp), n.arcs, n.tmp)
    {
      var a := chain[i];
      assert chain[..i + 1] == chain[..i] + [a];
      if IsConstraint(a.kind) && a.from == con.to {
        ghost var g := n.G();
        assert a in n.arcs;
        n.FreeArc(a);
        DropLoop(g, n.G(), a);
      }
    }
    assert chain[..|chain|] == chain;
  }

  /** con has become the only inarc of its destination, if need be of a clone. */
  ghost predicate ClonedTo(states: seq<nat>, arcs0: set<Arc>, arcs: set<Arc>, con: Arc, c: Arc) {
    && c == con.(to := c.to)
    && (c.to == con.to <==> forall a | a in arcs0 && a.to == con.to :: a == con)
    && (c.to == con.to ==> arcs == arcs0)
    && (c.to != con.to ==> c.to !in states && arcs == arcs0 - {con} + Resourced(arcs0, con.to, c.to) + {c})
  }

  lemma CloneTargetShape(g: Net, h: Net, con: Arc, z: nat)
    requires Shaped(g) && SameEnds(g, h) && con in g.arcs && Unused(g, z)
    requires Forward(con.kind) && con.from != con.to && Inner(g, con.to)
    requires h.arcs == g.arcs - {con} + Resourced(g.arcs, con.to, z) + {con.(to := z)}
    ensures Derived(g, h) && OnlyIn(h, con.(to := z))
  {
    forall a | a in h.arcs
      ensures exists b :: b in g.arcs && Relocated(g, b, a)
      ensures a.to == z ==> a == con.(to := z)
    {
      ResourcedHas(g.arcs, con.to, z, a);
      var b := if a == con.(to := z) then con else if a in g.arcs then a else a.(from := con.to);
      assert b in g.arcs && Relocated(g, b, a);
    }
  }

  /** Clone the destination of con; con moves to the clone. */
  method CloneToAlways(n: Nfa, con: Arc) returns (c: Arc)
    requires n.Valid() && con in n.arcs && Pushable(n.G()) && Forward(con.kind)
    requires con.from != con.to && con.from in n.states && con.to in n.states && !n.Flag(con.to)
    modifies n
    ensures n.Valid() && Pushable(n.G()) && OnlyIn(n.G(), c) && c == con.(to := c.to) && !n.Flag(c.to)
    ensures SameLanguage(old(n.G()), n.G())
    ensures NothingNew(old(n.arcs), old(n.tmp), n.arcs, n.tmp)
    ensures c.to !in old(n.states) && c.to in n.states && forall x | x in old(n.states) :: x in n.states
    ensures n.arcs == old(n.arcs) - {con} + Resourced(old(n.arcs), con.to, c.to) + {c}
  {
    ghost var g := n.G();
    var s := n.NewState();
    n.CopyOuts(con.to, s);
    n.CpArc(con, con.from, s);
    n.FreeArc(con);
    c := con.(to := s);
    assert n.arcs == g.arcs - {con} + Resourced(g.arcs, con.to, s) + {c};
    CloneTarget(g, n.G(), con, s);
    CloneTargetShape(g, n.G(), con, s);
    DerivedKeeps(g, n.G());
  }

  /** Clone the destination of con if it has other inarcs; con comes back moved to the clone. */
  method CloneTo(n: Nfa, con: Arc) returns (c: Arc)
    requires n.Valid() && con in n.arcs && Pushable(n.G()) && Forward(con.kind)
    requires con.from != con.to && !n.Flag(con.to)
    modifies n
    ensures n.Valid() && Pushable(n.G()) && OnlyIn(n.G(), c) && c == con.(to := c.to) && !n.Flag(c.to)
    ensures SameLanguage(old(n.G()), n.G())
    ensures NothingNew(old(n.arcs), old(n.tmp), n.arcs, n.tmp)
    ensures ClonedTo(old(n.states), old(n.arcs), n.arcs, con, c)
    ensures forall x | x in old(n.states) :: x in n.states
  {
    n.Ends(con);
    n.Ins(con.to);
    if |n.ins[con.to]| > 1 {
      assert n.ins[con.to][0] != n.ins[con.to][1];
      assert n.ins[con.to][0] in n.arcs && n.ins[con.to][1] in n.arcs;
      c := CloneToAlways(n, con);
    } else {
      c := con;
    }
  }

  lemma PushCompatibleShape(g: Net, h: Net, con: Arc, b: Arc, z: nat)
    requires Shaped(g) && SameEnds(g, h) && OnlyIn(g, con) && Forward(con.kind) && Unused(g, z)
    requires b in g.arcs && b.from == con.to && b.kind != EMPTY && Combine(con, b) == COMPATIBLE
    requires h.arcs == g.arcs - {b} + {con.(from := z, to := b.to), b.(from := con.from, to := z)}
    ensures Derived(g, h) && OnlyIn(h, con)
  {
    assert ArcShaped(g, con) && ArcShaped(g, b);
    forall a | a in h.arcs
      ensures exists c :: c in g.arcs && Relocated(g, c, a)
    {
      assert Relocated(g, if a == con.(from := z, to := b.to) then con else if a == b.(from := con.from, to := z) then b else a, a);
    }
  }

  /** The step of `push` that swaps con and a compatible outarc a of its destination. */
  method SwapForward(n: Nfa, con: Arc, a: Arc) returns (s: nat)
    requires n.Valid() && Pushable(n.G()) && OnlyIn(n.G(), con) && Forward(con.kind) && !n.Flag(con.to)
    requires a in n.arcs && a.from == con.to && Combine(con, a) == COMPATIBLE
    modifies n
    ensures n.Valid() && Pushable(n.G()) && OnlyIn(n.G(), con) && SameLanguage(old(n.G()), n.G())
    ensures NothingNew(old(n.arcs), old(n.tmp), n.arcs, n.tmp)
    ensures OutOf(n.arcs, con.to) == OutOf(old(n.arcs), con.to) - {a}
    ensures s !in old(n.states)
    ensures n.arcs == old(n.arcs) - {a} + {con.(from := s, to := a.to), a.(from := con.from, to := s)}
    ensures forall x | x in old(n.states) :: x in n.states
  {
    ghost var g := n.G();
    n.Ends(a);
    n.Ends(con);
    s := n.NewState();
    n.CpArc(con, s, a.to);
    n.CpArc(a, con.from, s);
    n.FreeArc(a);
    SwappedSets(g.arcs, n.arcs, con.to, a, con.(from := s, to := a.to), a.(from := con.from, to := s));
    PushCompatible(g, n.G(), con, a, s);
    PushCompatibleShape(g, n.G(), con, a, s);
    DerivedKeeps(g, n.G());
  }

  method DestroyForward(n: Nfa, con: Arc, a: Arc)
    requires n.Valid() && Pushable(n.G()) && OnlyIn(n.G(), con) && Forward(con.kind)
    requires a in n.arcs && a.from == con.to && Combine(con, a) == INCOMPATIBLE
    modifies n
    ensures n.Valid() && Pushable(n.G()) && OnlyIn(n.G(), con) && SameLanguage(old(n.G()), n.G())
    ensures NothingNew(old(n.arcs), old(n.tmp), n.arcs, n.tmp)
    ensures OutOf(n.arcs, con.to) == OutOf(old(n.arcs), con.to) - {a} && n.states == old(n.states)
    ensures n.arcs == old(n.arcs) - {a}
  {
    ghost var g := n.G();
    n.FreeArc(a);
    PushIncompatible(g, n.G(), con, a);
    FewerPushable(g, n.G());
    assert con != a;
  }

  /** Where con has been propagated into outarcs of its destination. */
  ghost predicate PropagatedTo(states: seq<nat>, arcs0: set<Arc>, arcs: set<Arc>, con: Arc)
    requires Forward(con.kind)
  {
    && con.from in states && con.to in states && con.from != con.to
    && (forall b | b in arcs && b !in arcs0 :: b.from != con.to && MadeAhead(states, arcs0, con, b))
    && (forall a | a in arcs0 && a !in arcs ::
          a.from == con.to && a.kind != EMPTY && Combine(con, a) != SATISFIED && PushedPast(states, arcs, con, a))
  }

  lemma PropagatedToOne(states: seq<nat>, arcs0: set<Arc>, arcs: set<Arc>, arcs': set<Arc>, con: Arc, a: Arc, s: nat)
    requires Forward(con.kind) && PropagatedTo(states, arcs0, arcs, con)
    requires a in arcs && a.from == con.to && a.to != con.to && a.kind != EMPTY && Combine(con, a) != SATISFIED
    requires Combine(con, a) == INCOMPATIBLE ==> arcs' == arcs - {a}
    requires Combine(con, a) == COMPATIBLE ==>
               s !in states && arcs' == arcs - {a} + {con.(from := s, to := a.to), a.(from := con.from, to := s)}
    ensures PropagatedTo(states, arcs0, arcs', con)
  {
    assert a in arcs0;
    forall b | b in arcs' && b !in arcs0
      ensures b.from != con.to && MadeAhead(states, arcs0, con, b)
    {
      if b !in arcs {
        assert MadeAheadOf(states, con, a, b);
      }
    }
    forall c | c in arcs0 && c !in arcs'
      ensures c.from == con.to && c.kind != EMPTY && Combine(con, c) != SATISFIED && PushedPast(states, arcs', con, c)
    {
      if c != a && Combine(con, c) == COMPATIBLE {
        var z :| z !in states && con.(from := z, to := c.to) in arcs && c.(from := con.from, to := z) in arcs;
        assert con.(from := z, to := c.to) in arcs' && c.(from := con.from, to := z) in arcs';
      }
    }
  }

  /** Propagate con into the outarcs of its destination. */
  method PropagateForward(n: Nfa, con: Arc)
    requires n.Valid() && Pushable(n.G()) && OnlyIn(n.G(), con) && Forward(con.kind) && !n.Flag(con.to)
    modifies n
    ensures n.Valid() && Pushable(n.G()) && OnlyIn(n.G(), con) && SameLanguage(old(n.G()), n.G())
    ensures NothingNew(old(n.arcs), old(n.tmp), n.arcs, n.tmp)
    ensures forall b | b in n.arcs && b.from == con.to :: b.kind != EMPTY && Combine(con, b) == SATISFIED
    ensures PropagatedTo(old(n.states), old(n.arcs), n.arcs, con)
    ensures forall x | x in old(n.states) :: x in n.states
  {
    n.Ends(con);
    n.Outs(con.to);
    var chain := n.outs[con.to];
    for i := 0 to |chain|
      invariant n.Valid() && Pushable(n.G()) && OnlyIn(n.G(), con) && SameLanguage(old(n.G()), n.G())
      invariant NothingNew(old(n.arcs), old(n.tmp), n.arcs, n.tmp)
      invariant forall k | i <= k < |chain| :: chain[k] in OutOf(n.arcs, con.to)
      invariant forall b | b in OutOf(n.arcs, con.to) :: b in chain[i..] || Combine(con, b) == SATISFIED
      invariant PropagatedTo(old(n.states), old(n.arcs), n.arcs, con)
      invariant forall x | x in old(n.states) :: x in n.states
    {
      var a := chain[i];
      assert a in OutOf(n.arcs, con.to);
      assert chain[i..] == [a] + chain[i + 1..];
      ghost var arcs := n.arcs;
      match Combine(con, a)
      case INCOMPATIBLE =>
        DestroyForward(n, con, a);
        PropagatedToOne(old(n.states), old(n.arcs), arcs, n.arcs, con, a, 0);
      case SATISFIED =>
      case COMPATIBLE =>
        var s := SwapForward(n, con, a);
        PropagatedToOne(old(n.states), old(n.arcs), arcs, n.arcs, con, a, s);
    }
    assert forall b | b in n.arcs && b.from == con.to :: b in OutOf(n.arcs, con.to);
  }

  lemma PushSatisfiedShape(g: Net, h: Net, con: Arc)
    requires Shaped(g) && SameEnds(g, h) && OnlyIn(g, con) && Forward(con.kind) && Inner(g, con.to)
    requires h.arcs == g.arcs - {con} - OutOf(g.arcs, con.to) + Resourced(g.arcs, con.to, con.from)
    ensures Derived(g, h)
  {
    assert ArcShaped(g, con);
    forall a | a in h.arcs
      ensures exists c :: c in g.arcs && Relocated(g, c, a)
    {
      ResourcedHas(g.arcs, con.to, con.from, a);
      assert Relocated(g, if a in g.arcs then a else a.(from := con.to), a);
    }
  }

  lemma DroppedTarget(g: Net, arcs: set<Arc>, con: Arc)
    requires OnlyIn(g, con)
    requires var moved := g.arcs - OutOf(g.arcs, con.to) + Resourced(g.arcs, con.to, con.from);
      arcs == moved - Into(moved, con.to) - OutOf(moved, con.to)
    ensures arcs == g.arcs - {con} - OutOf(g.arcs, con.to) + Resourced(g.arcs, con.to, con.from)
  {
    forall a
      ensures a in arcs <==> a in g.arcs - {con} - OutOf(g.arcs, con.to) + Resourced(g.arcs, con.to, con.from)
    {
      ResourcedHas(g.arcs, con.to, con.from, a);
    }
  }

  /** Remaining outarcs incorporate the constraint; its destination goes. */
  method IncorporateForward(n: Nfa, con: Arc)
    requires n.Valid() && Pushable(n.G()) && OnlyIn(n.G(), con) && Forward(con.kind) && !n.Flag(con.to)
    requires forall b | b in n.arcs && b.from == con.to :: b.kind != EMPTY && Combine(con, b) == SATISFIED
    modifies n
    ensures n.Valid() && Pushable(n.G()) && SameLanguage(old(n.G()), n.G())
    ensures NothingNew(old(n.arcs), old(n.tmp), n.arcs, n.tmp)
    ensures n.arcs == old(n.arcs) - {con} - OutOf(old(n.arcs), con.to) + Resourced(old(n.arcs), con.to, con.from)
    ensures forall x :: x in n.states <==> x in old(n.states) && x != con.to
  {
    ghost var g := n.G();
    n.Ends(con);
    n.MoveOuts(con.to, con.from);
    n.DropState(con.to);
    DroppedTarget(g, n.arcs, con);
    PushSatisfied(g, n.G(), con);
    PushSatisfiedShape(g, n.G(), con);
    DerivedKeeps(g, n.G());
  }

  /** The arcs after the last steps of `push`, con being the only inarc of its destination. */
  ghost predicate FinishTo(states: seq<nat>, arcs0: set<Arc>, arcs: set<Arc>, con: Arc)
    requires Forward(con.kind)
  {
    && con.from in states && con.to in states && con.from != con.to
    && (forall b | b in arcs :: (b in arcs0 && b != con && b.from != con.to) || MadeAhead(states, arcs0, con, b))
    && (forall a | a in arcs0 && a != con && a.from != con.to :: a in arcs)
    && (forall a | a in arcs0 && a.from == con.to :: PushedPast(states, arcs, con, a))
  }

  lemma FinishedForward(states: seq<nat>, arcs0: set<Arc>, arcs: set<Arc>, arcs': set<Arc>, con: Arc)
    requires Forward(con.kind) && con in arcs && PropagatedTo(states, arcs0, arcs, con)
    requires forall a | a in arcs0 && a.to == con.to :: a == con
    requires forall b | b in arcs && b.from == con.to :: b.kind != EMPTY && Combine(con, b) == SATISFIED
    requires arcs' == arcs - {con} - OutOf(arcs, con.to) + Resourced(arcs, con.to, con.from)
    ensures FinishTo(states, arcs0, arcs', con)
  {
    forall b | b in arcs'
      ensures (b in arcs0 && b != con && b.from != con.to) || MadeAhead(states, arcs0, con, b)
    {
      ResourcedHas(arcs, con.to, con.from, b);
      if b !in arcs - {con} - OutOf(arcs, con.to) {
        assert MadeAheadOf(states, con, b.(from := con.to), b);
      }
    }
    forall a | a in arcs0 && a.from == con.to
      ensures PushedPast(states, arcs', con, a)
    {
      ResourcedHas(arcs, con.to, con.from, a.(from := con.from));
      if a !in arcs && Combine(con, a) == COMPATIBLE {
        var z :| z !in states && con.(from := z, to := a.to) in arcs && a.(from := con.from, to := z) in arcs;
        assert con.(from := z, to := a.to) in arcs' && a.(from := con.from, to := z) in arcs';
      }
    }
  }

  ghost predicate FinishToFolded(states: seq<nat>, arcs0: set<Arc>, arcs: set<Arc>, con: Arc)
    requires Forward(con.kind)
  {
    forall u {:trigger Glance(u)} :: Glance(u) ==> FinishTo(states, arcs0, arcs, con)
  }

  method FinishPush(n: Nfa, con: Arc)
    requires n.Valid() && Pushable(n.G()) && OnlyIn(n.G(), con) && Forward(con.kind) && !n.Flag(con.to)
    modifies n
    ensures n.Valid() && Pushable(n.G()) && SameLanguage(old(n.G()), n.G())
    ensures NothingNew(old(n.arcs), old(n.tmp), n.arcs, n.tmp)
    ensures FinishToFolded(old(n.states), old(n.arcs), n.arcs, con)
    ensures forall x | x in old(n.states) :: x in n.states <==> x != con.to
  {
    PropagateForward(n, con);
    ghost var arcs := n.arcs;
    IncorporateForward(n, con);
    FinishedForward(old(n.states), old(n.arcs), arcs, n.arcs, con);
  }

  /** What is made of an arc out of the clone is made of an arc out of the destination. */
  lemma MadeAheadBefore(states: seq<nat>, arcs0: set<Arc>, arcs1: set<Arc>, states2: seq<nat>, arcs2: set<Arc>, con: Arc, c: Arc, b: Arc)
    requires Forward(con.kind) && con.from != con.to && Within(arcs0, states) && forall x | x in states :: x in states2
    requires UncircledTo(arcs0, arcs1, con) && ClonedTo(states, arcs1, arcs2, con, c) && MadeAhead(states2, arcs2, c, b)
    ensures b != con && !CircularTo(con, b) && MadeAhead(states, arcs0, con, b)
  {
    var a :| a in arcs2 && a.from == c.to && !CircularTo(c, a) && MadeAheadOf(states2, c, a, b);
    var a0 := a.(from := con.to);
    ResourcedHas(arcs1, con.to, c.to, a);
    assert a0 in arcs1;
    assert Combine(con, a0) == Combine(c, a);
    assert MadeAheadOf(states, con, a0, b);
  }

  /** What dropping circular constraints, cloning and the last steps come to. */
  lemma AllPushed(states: seq<nat>, arcs0: set<Arc>, arcs1: set<Arc>, states2: seq<nat>, arcs2: set<Arc>, arcs: set<Arc>, con: Arc, c: Arc)
    requires Forward(con.kind) && con.from != con.to && Within(arcs0, states)
    requires UncircledTo(arcs0, arcs1, con) && ClonedTo(states, arcs1, arcs2, con, c)
    requires FinishToFolded(states2, arcs2, arcs, c) && forall x | x in states :: x in states2
    ensures LastIn(arcs0, con) <==> c == con
    ensures Pushed(states, arcs0, arcs, con)
  {
    assert Glance(0);
    forall b | b in arcs && (b == con || b !in arcs0 || CircularTo(con, b))
      ensures b != con && !CircularTo(con, b) && MadeAhead(states, arcs0, con, b)
    {
      ResourcedHas(arcs1, con.to, c.to, b);
      assert MadeAhead(states2, arcs2, c, b);
      MadeAheadBefore(states, arcs0, arcs1, states2, arcs2, con, c, b);
    }
    forall a | a in arcs0 && a.from == con.to && !CircularTo(con, a)
      ensures PushedPast(states, arcs, con, a)
    {
      var b := a.(from := c.to);
      ResourcedHas(arcs1, con.to, c.to, b);
      assert b in arcs2 && PushedPast(states2, arcs, c, b);
      assert Combine(con, a) == Combine(c, b);
    }
  }

  /** The main part of `push`. */
  method PushThrough(n: Nfa, con: Arc)
    requires n.Valid() && con in n.arcs && Pushable(n.G()) && Forward(con.kind)
    requires con.from != con.to && con.to in n.states && !n.Flag(con.to)
    modifies n
    ensures n.Valid() && Pushable(n.G()) && SameLanguage(old(n.G()), n.G())
    ensures NothingNew(old(n.arcs), old(n.tmp), n.arcs, n.tmp)
    ensures Pushed(old(n.states), old(n.arcs), n.arcs, con)
    ensures forall x | x in old(n.states) :: x in n.states <==> !(x == con.to && LastIn(old(n.arcs), con))
  {
    n.States();
    DropCircularIns(n, con);
    FewerPushable(old(n.G()), n.G());
    PushUncircled(n, con, old(n.states), old(n.arcs));
  }

  method PushUncircled(n: Nfa, con: Arc, ghost states0: seq<nat>, ghost arcs0: set<Arc>)
    requires n.Valid() && Pushable(n.G()) && Forward(con.kind) && con.from != con.to && !n.Flag(con.to)
    requires n.states == states0 && UncircledTo(arcs0, n.arcs, con) && Within(arcs0, states0)
    modifies n
    ensures n.Valid() && Pushable(n.G()) && SameLanguage(old(n.G()), n.G())
    ensures NothingNew(old(n.arcs), old(n.tmp), n.arcs, n.tmp)
    ensures Pushed(states0, arcs0, n.arcs, con)
    ensures forall x | x in states0 :: x in n.states <==> !(x == con.to && LastIn(arcs0, con))
  {
    var c := CloneTo(n, con);
    ghost var states2, arcs2 := n.states, n.arcs;
    FinishPush(n, c);
    AllPushed(states0, arcs0, old(n.arcs), states2, arcs2, n.arcs, con, c);
  }

  /** `push`: move a forward constraint past its destination state. It fails only next to the end; at most that state
      is deleted, if con was its last inarc. */
  method Push(n: Nfa, con: Arc) returns (done: bool)
    requires n.Valid() && con in n.arcs && Pushable(n.G()) && Forward(con.kind)
    modifies n
    ensures n.Valid() && Pushable(n.G()) && SameLanguage(old(n.G()), n.G())
    ensures NothingNew(old(n.arcs), old(n.tmp), n.arcs, n.tmp)
    ensures done <==> con.from == con.to || con.to != n.post
    ensures !done ==> n.arcs == old(n.arcs) && n.states == old(n.states)
    ensures done ==> con !in n.arcs
    ensures con.from == con.to ==> n.arcs == old(n.arcs) - {con}
    ensures done && con.from != con.to ==> Pushed(old(n.states), old(n.arcs), n.arcs, con)
    ensures forall b | b in n.arcs && b !in old(n.arcs) && Forward(b.kind) ::
              b.kind == con.kind && b.co == con.co && exists a :: a in old(n.arcs) && a.from == con.to && a.to == b.to
    ensures forall x | x in old(n.states) ::
              x !in n.states <==> x == con.to && con.from != con.to && con.to != n.post && LastIn(old(n.arcs), con)
                                  && exists a :: a in old(n.arcs) && a.from == con.to
  {
    ghost var g := n.G();
    assert ArcShaped(g, con);
    n.Ends(con);
    if con.from == con.to {
      n.FreeArc(con);
      DropLoop(g, n.G(), con);
      FewerPushable(g, n.G());
      return true;
    }
    if n.Flag(con.to) {
      return false;
    }
    n.Outs(con.to);
    if |n.outs[con.to]| == 0 {
      n.FreeArc(con);
      DropDeadEnd(g, n.G(), con.to);
      FewerPushable(g, n.G());
      return true;
    }
    assert n.outs[con.to][0] in n.arcs;
    PushThrough(n, con);
    forall b | b in n.arcs && b !in old(n.arcs) && Forward(b.kind)
      ensures b.kind == con.kind && b.co == con.co && exists a :: a in old(n.arcs) && a.from == con.to && a.to == b.to
    {
      PushedForward(old(n.states), old(n.arcs), n.arcs, con, b);
    }
    done := true;
  }

  // ----- constraints that have arrived at the ends become colors

  /** The color arc that reads what this arc reads. */
  function Plain(g: Net, a: Arc): Arc {
    a.(kind := PLAIN, co := Read(g, a))
  }

  lemma Plained(g: Net, h: Net, a: Arc)
    requires SameEnds(g, h) && a in g.arcs && Reads(g, a) && h.arcs == g.arcs + {Plain(g, a)} - {a} && a.kind != PLAIN
    ensures SameLanguage(g, h)
  {
    forall s: Subject
      ensures Accepts(g, s) <==> Accepts(h, s)
    {
      forall b: Arc, q: nat, p: nat {:trigger Fires(g, s, b, q, p)} |
        b in g.arcs && Reached(g, s, Start(g), b.from, q) && Reached(h, s, Start(h), b.from, q) && Fires(g, s, b, q, p)
        ensures Reached(h, s, Start(h), b.to, p)
      {
        ReachedStep(h, s, Start(h), if b == a then Plain(g, a) else b, q, p);
      }
      Simulation(g, h, s);
      forall b: Arc, q: nat, p: nat {:trigger Fires(h, s, b, q, p)} |
        b in h.arcs && Reached(h, s, Start(h), b.from, q) && Reached(g, s, Start(g), b.from, q) && Fires(h, s, b, q, p)
        ensures Reached(g, s, Start(g), b.to, p)
      {
        ReachedStep(g, s, Start(g), if b == Plain(g, a) then a else b, q, p);
      }
      Simulation(h, g, s);
    }
  }

  /** Replace a constraint that has arrived at its end. */
  method ColorArc(n: Nfa, a: Arc, co: nat)
    requires n.Valid() && Shaped(n.G()) && NoEmpties(n.G()) && a in n.arcs && Reads(n.G(), a) && a.kind != PLAIN
    requires co == Read(n.G(), a)
    modifies n`outs, n`ins, n`arcs, n`colors
    ensures n.Valid() && Shaped(n.G()) && NoEmpties(n.G()) && SameLanguage(old(n.G()), n.G())
    ensures DollarsKept(old(n.G())) && a.kind == CARET ==> DollarsKept(n.G())
    ensures n.arcs == old(n.arcs) - {a} + {Plain(n.G(), a)}
  {
    ghost var g := n.G();
    assert ArcShaped(g, a);
    n.Ends(a);
    n.NewArc(PLAIN, co, a.from, a.to);
    n.FreeArc(a);
    Plained(g, n.G(), a);
    forall b | b in n.arcs
      ensures ArcShaped(n.G(), b)
    {
      assert b in g.arcs ==> ArcShaped(g, b);
    }
  }

  /** The end of `pullback`: `^` next to the start becomes a false color. */
  method ColorCarets(n: Nfa)
    requires n.Valid() && Pushable(n.G())
    modifies n`outs, n`ins, n`arcs, n`colors
    ensures n.Valid() && Pushable(n.G()) && SameLanguage(old(n.G()), n.G())
    ensures forall a | a in n.arcs && a.from == n.pre :: a.kind == PLAIN
    ensures forall a | a in old(n.arcs) && a.from != n.pre :: a in n.arcs
    ensures forall a | a in n.arcs && a.from != n.pre :: a in old(n.arcs)
    ensures forall a | a in n.arcs :: a in old(n.arcs) || (a.kind == PLAIN && a.co in n.bos)
  {
    n.Outs(n.pre);
    var chain := n.outs[n.pre];
    for i := 0 to |chain|
      invariant n.Valid() && Pushable(n.G()) && SameLanguage(old(n.G()), n.G())
      invariant forall k | i <= k < |chain| :: chain[k] in n.arcs && chain[k].from == n.pre
      invariant forall a | a in n.arcs && a.from == n.pre :: a in chain[i..] || a.kind == PLAIN
      invariant forall a: Arc | a.from != n.pre :: a in n.arcs <==> a in old(n.arcs)
      invariant forall a | a in n.arcs :: a in old(n.arcs) || (a.kind == PLAIN && a.co in n.bos)
    {
      var a := chain[i];
      assert a in n.arcs && ArcShaped(n.G(), a);
      assert chain[i..] == [a] + chain[i + 1..];
      if a.kind == CARET {
        ColorArc(n, a, n.bos[a.co]);
      }
    }
  }

  /** The end of `pushfwd`: `$` next to the end becomes a false color. */
  method ColorDollars(n: Nfa)
    requires n.Valid() && Shaped(n.G()) && NoEmpties(n.G())
    modifies n`outs, n`ins, n`arcs, n`colors
    ensures n.Valid() && Shaped(n.G()) && NoEmpties(n.G()) && SameLanguage(old(n.G()), n.G())
    ensures forall a | a in n.arcs && a.to == n.post :: a.kind == PLAIN
    ensures forall a | a in old(n.arcs) && a.to != n.post :: a in n.arcs
    ensures forall a | a in n.arcs && a.to != n.post :: a in old(n.arcs)
    ensures forall a | a in n.arcs :: a in old(n.arcs) || (a.kind == PLAIN && a.co in n.eos)
  {
    n.Ins(n.post);
    var chain := n.ins[n.post];
    for i := 0 to |chain|
      invariant n.Valid() && Shaped(n.G()) && NoEmpties(n.G()) && SameLanguage(old(n.G()), n.G())
      invariant forall k | i <= k < |chain| :: chain[k] in n.arcs && chain[k].to == n.post
      invariant forall a | a in n.arcs && a.to == n.post :: a in chain[i..] || a.kind == PLAIN
      invariant forall a: Arc | a.to != n.post :: a in n.arcs <==> a in old(n.arcs)
      invariant forall a | a in n.arcs :: a in old(n.arcs) || (a.kind == PLAIN && a.co in n.eos)
    {
      var a := chain[i];
      assert a in n.arcs && ArcShaped(n.G(), a);
      assert chain[i..] == [a] + chain[i + 1..];
      if a.kind == DOLLAR {
        ColorArc(n, a, n.eos[a.co]);
      }
    }
  }
}
