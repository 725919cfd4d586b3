/** Moving constraints to the ends of an NFA (regc_nfa.c): `pull`, `push`, and the loops that turn those that have
    arrived into colors. */
module NfaConstraints {
  import opened Nets
  import opened NetRewrites
  import opened Nfas
  import opened Folding

  ghost predicate Pullable(g: Net) {
    Shaped(g) && CaretsKept(g) && NoEmpties(g)
  }

  predicate IsConstraint(k: Kind) {
    k == CARET || k == DOLLAR || k == BEHIND || k == AHEAD
  }

  /** A circular constraint at the source of con. */
  predicate Circular(con: Arc, a: Arc) {
    a.from == a.to == con.from && IsConstraint(a.kind)
  }

  /** con is the last outarc of its source, circular constraints aside. */
  ghost predicate LastOut(arcs: set<Arc>, con: Arc) {
    forall a | a in arcs && a.from == con.from :: a == con || Circular(con, a)
  }

  /** An arc made of con and inarc a of its source: a leads past the source where it makes con true; where the two can
      pass each other con comes first and then a, by way of a state that is not one of these. */
  ghost predicate MadeOf(states: seq<nat>, con: Arc, a: Arc, b: Arc)
    requires Backward(con.kind)
  {
    && a.kind != EMPTY
    && match Combine(con, a)
       case INCOMPATIBLE => false
       case SATISFIED => b == a.(to := con.to)
       case COMPATIBLE =>
         || (b.to !in states && b == con.(from := a.from, to := b.to))
         || (b.from !in states && b == a.(from := b.from, to := con.to))
  }

  ghost predicate Made(states: seq<nat>, arcs: set<Arc>, con: Arc, b: Arc)
    requires Backward(con.kind)
  {
    exists a :: a in arcs && a.to == con.from && !Circular(con, a) && MadeOf(states, con, a, b)
  }

  /** Where inarc a of con's source was, all it comes to past con is there now. */
  ghost predicate PulledPast(states: seq<nat>, arcs: set<Arc>, con: Arc, a: Arc)
    requires Backward(con.kind)
  {
    && a.kind != EMPTY
    && match Combine(con, a)
       case INCOMPATIBLE => true
       case SATISFIED => a.(to := con.to) in arcs
       case COMPATIBLE => exists z :: z !in states && con.(from := a.from, to := z) in arcs && a.(from := z, to := con.to) in arcs
  }

  /** What pulling con past its source makes of the arcs: con and circular constraints at its source go, the inarcs of
      the source are taken together with con, and if con was its last outarc they go too; no other arc goes or comes. */
  ghost predicate Pulled(states: seq<nat>, arcs0: set<Arc>, arcs: set<Arc>, con: Arc)
    requires Backward(con.kind)
  {
    && con !in arcs
    && (forall a | a in arcs :: !Circular(con, a))
    && (forall a | a in arcs0 && a != con && !Circular(con, a) && (a.to != con.from || !LastOut(arcs0, con)) :: a in arcs)
    && (forall b | b in arcs && b !in arcs0 :: Made(states, arcs0, con, b))
    && (forall a | a in arcs0 && a.to == con.from && !Circular(con, a) :: PulledPast(states, arcs, con, a))
  }

  /** Backward constraints that come have the label of con and start where inarcs of its source do. */
  lemma PulledBackward(states: seq<nat>, arcs0: set<Arc>, arcs: set<Arc>, con: Arc, b: Arc)
    requires Backward(con.kind) && Pulled(states, arcs0, arcs, con) && b in arcs && b !in arcs0 && Backward(b.kind)
    ensures b.kind == con.kind && b.co == con.co && exists a :: a in arcs0 && a.to == con.from && a.from == b.from
  {
    var a :| a in arcs0 && a.to == con.from && !Circular(con, a) && MadeOf(states, con, a, b);
  }

  ghost predicate Within(arcs: set<Arc>, states: seq<nat>) {
    forall a | a in arcs :: a.from in states && a.to in states
  }

  /** Of the arcs circular constraints at con's source have gone. */
  ghost predicate Uncircled(arcs0: set<Arc>, arcs: set<Arc>, con: Arc) {
    && con in arcs && arcs <= arcs0
    && (forall a | a in arcs0 && a !in arcs :: Circular(con, a))
    && (forall a | a in arcs :: !Circular(con, a))
  }

  /** Get rid of circular constraints among the outarcs of con's source. */
  method DropCircularOuts(n: Nfa, con: Arc)
    requires n.Valid() && con in n.arcs && con.from != con.to && con.from in n.states && !n.Flag(con.from)
    modifies n`outs, n`ins, n`arcs, n`colors
    ensures n.Valid() && Uncircled(old(n.arcs), n.arcs, con)
    ensures SameLanguage(old(n.G()), n.G())
    ensures NothingNew(old(n.arcs), old(n.tmp), n.arcs, n.tmp)
  {
    n.Outs(con.from);
    var chain := n.outs[con.from];
    for i := 0 to |chain|
      invariant n.Valid() && n.arcs <= old(n.arcs)
      invariant forall a | a in old(n.arcs) && a !in n.arcs :: Circular(con, a) && a in chain[..i]
      invariant forall a | a in chain[..i] && a in n.arcs :: !Circular(con, a)
      invariant SameLanguage(old(n.G()), n.G())
      invariant NothingNew(old(n.arcs), old(n.tmp), n.arcs, n.tmp)
    {
      var a := chain[i];
      assert chain[..i + 1] == chain[..i] + [a];
      if IsConstraint(a.kind) && a.to == con.from {
        ghost var g := n.G();
        assert a in n.arcs;
        n.FreeArc(a);
        DropLoop(g, n.G(), a);
      }
    }
    assert chain[..|chain|] == chain;
  }

  /** con has become the only outarc of its source, if need be of a clone. */
  ghost predicate Cloned(states: seq<nat>, arcs0: set<Arc>, arcs: set<Arc>, con: Arc, c: Arc) {
    && c == con.(from := c.from)
    && (c.from == con.from <==> forall a | a in arcs0 && a.from == con.from :: a == con)
    && (c.from == con.from ==> arcs == arcs0)
    && (c.from != con.from ==> c.from !in states && arcs == arcs0 - {con} + Redirected(arcs0, con.from, c.from) + {c})
  }

  lemma CloneSourceShape(g: Net, h: Net, con: Arc, z: nat)
    requires Shaped(g) && SameEnds(g, h) && con in g.arcs && Unused(g, z)
    requires Backward(con.kind) && con.from != con.to && Inner(g, con.from)
    requires h.arcs == g.arcs - {con} + Redirected(g.arcs, con.from, z) + {con.(from := z)}
    ensures Derived(g, h) && OnlyOut(h, con.(from := z))
  {
    forall a | a in h.arcs
      ensures exists b :: b in g.arcs && Relocated(g, b, a)
      ensures a.from == z ==> a == con.(from := z)
    {
      RedirectedHas(g.arcs, con.from, z, a);
      var b := if a == con.(from := z) then con else if a in g.arcs then a else a.(to := con.from);
      assert b in g.arcs && Relocated(g, b, a);
    }
  }

  /** Clone the source of con; con moves to the clone. */
  method CloneAlways(n: Nfa, con: Arc) returns (c: Arc)
    requires n.Valid() && con in n.arcs && Pullable(n.G()) && Backward(con.kind)
    requires con.from != con.to && con.from in n.states && con.to in n.states && !n.Flag(con.from)
    modifies n
    ensures n.Valid() && Pullable(n.G()) && OnlyOut(n.G(), c) && c == con.(from := c.from) && !n.Flag(c.from)
    ensures SameLanguage(old(n.G()), n.G())
    ensures NothingNew(old(n.arcs), old(n.tmp), n.arcs, n.tmp)
    ensures c.from !in old(n.states) && c.from in n.states && forall x | x in old(n.states) :: x in n.states
    ensures n.arcs == old(n.arcs) - {con} + Redirected(old(n.arcs), con.from, c.from) + {c}
  {
    ghost var g := n.G();
    var s := n.NewState();
    n.CopyIns(con.from, s);
    n.CpArc(con, s, con.to);
    n.FreeArc(con);
    c := con.(from := s);
    assert n.arcs == g.arcs - {con} + Redirected(g.arcs, con.from, s) + {c};
    CloneSource(g, n.G(), con, s);
    CloneSourceShape(g, n.G(), con, s);
    DerivedKeeps(g, n.G());
  }

  /** Clone the source of con if it has other outarcs; con comes back moved to the clone. */
  method CloneFrom(n: Nfa, con: Arc) returns (c: Arc)
    requires n.Valid() && con in n.arcs && Pullable(n.G()) && Backward(con.kind)
    requires con.from != con.to && !n.Flag(con.from)
    modifies n
    ensures n.Valid() && Pullable(n.G()) && OnlyOut(n.G(), c) && c == con.(from := c.from) && !n.Flag(c.from)
    ensures SameLanguage(old(n.G()), n.G())
    ensures NothingNew(old(n.arcs), old(n.tmp), n.arcs, n.tmp)
    ensures Cloned(old(n.states), old(n.arcs), n.arcs, con, c)
    ensures forall x | x in old(n.states) :: x in n.states
  {
    n.Ends(con);
    n.Outs(con.from);
    if |n.outs[con.from]| > 1 {
      assert n.outs[con.from][0] != n.outs[con.from][1];
      assert n.outs[con.from][0] in n.arcs && n.outs[con.from][1] in n.arcs;
      c := CloneAlways(n, con);
    } else {
      c := con;
    }
  }

  lemma PullCompatibleShape(g: Net, h: Net, con: Arc, b: Arc, z: nat)
    requires Shaped(g) && SameEnds(g, h) && OnlyOut(g, con) && Backward(con.kind) && Unused(g, z)
    requires b in g.arcs && b.to == con.from && b.kind != EMPTY && Combine(con, b) == COMPATIBLE
    requires h.arcs == g.arcs - {b} + {b.(from := z, to := con.to), con.(from := b.from, to := z)}
    ensures Derived(g, h) && OnlyOut(h, con)
  {
    assert ArcShaped(g, con) && ArcShaped(g, b);
    forall a | a in h.arcs
      ensures exists c :: c in g.arcs && Relocated(g, c, a)
    {
      assert Relocated(g, if a == b.(from := z, to := con.to) then b else if a == con.(from := b.from, to := z) then con else a, a);
    }
  }

  lemma SwappedSets(arcs0: set<Arc>, arcs: set<Arc>, x: nat, a: Arc, b: Arc, c: Arc)
    requires arcs == arcs0 + {b} + {c} - {a} && a != b && a != c
    ensures arcs == arcs0 - {a} + {b, c}
    ensures b.to != x && c.to != x ==> Into(arcs, x) == Into(arcs0, x) - {a}
    ensures b.from != x && c.from != x ==> OutOf(arcs, x) == OutOf(arcs0, x) - {a}
  {}

  /** The step of `pull` that swaps con and a compatible inarc a of its source. */
  method SwapBack(n: Nfa, con: Arc, a: Arc) returns (s: nat)
    requires n.Valid() && Pullable(n.G()) && OnlyOut(n.G(), con) && Backward(con.kind) && !n.Flag(con.from)
    requires a in n.arcs && a.to == con.from && Combine(con, a) == COMPATIBLE
    modifies n
    ensures n.Valid() && Pullable(n.G()) && OnlyOut(n.G(), con) && SameLanguage(old(n.G()), n.G())
    ensures NothingNew(old(n.arcs), old(n.tmp), n.arcs, n.tmp)
    ensures Into(n.arcs, con.from) == Into(old(n.arcs), con.from) - {a}
    ensures s !in old(n.states)
    ensures n.arcs == old(n.arcs) - {a} + {a.(from := s, to := con.to), con.(from := a.from, to := s)}
    ensures forall x | x in old(n.states) :: x in n.states
  {
    ghost var g := n.G();
    n.Ends(a);
    n.Ends(con);
    s := n.NewState();
    n.CpArc(a, s, con.to);
    n.CpArc(con, a.from, s);
    n.FreeArc(a);
    SwappedSets(g.arcs, n.arcs, con.from, a, a.(from := s, to := con.to), con.(from := a.from, to := s));
    PullCompatible(g, n.G(), con, a, s);
    PullCompatibleShape(g, n.G(), con, a, s);
    DerivedKeeps(g, n.G());
  }

  lemma PullIncompatibleShape(g: Net, h: Net, con: Arc, b: Arc)
    requires SameEnds(g, h) && OnlyOut(g, con) && b.to == con.from && h.arcs == g.arcs - {b}
    ensures Derived(g, h) && OnlyOut(h, con)
  {
    forall a | a in h.arcs
      ensures exists c :: c in g.arcs && Relocated(g, c, a)
    {
      assert Relocated(g, a, a);
    }
  }

  method DestroyBack(n: Nfa, con: Arc, a: Arc)
    requires n.Valid() && Pullable(n.G()) && OnlyOut(n.G(), con) && Backward(con.kind)
    requires a in n.arcs && a.to == con.from && Combine(con, a) == INCOMPATIBLE
    modifies n
    ensures n.Valid() && Pullable(n.G()) && OnlyOut(n.G(), con) && SameLanguage(old(n.G()), n.G())
    ensures NothingNew(old(n.arcs), old(n.tmp), n.arcs, n.tmp)
    ensures Into(n.arcs, con.from) == Into(old(n.arcs), con.from) - {a} && n.states == old(n.states)
    ensures n.arcs == old(n.arcs) - {a}
  {
    ghost var g := n.G();
    n.FreeArc(a);
    PullIncompatible(g, n.G(), con, a);
    PullIncompatibleShape(g, n.G(), con, a);
    DerivedKeeps(g, n.G());
  }

  /** Where con has been propagated into inarcs of its source. */
  ghost predicate Propagated(states: seq<nat>, arcs0: set<Arc>, arcs: set<Arc>, con: Arc)
    requires Backward(con.kind)
  {
    && con.from in states && con.to in states && con.from != con.to
    && (forall b | b in arcs && b !in arcs0 :: b.to != con.from && Made(states, arcs0, con, b))
    && (forall a | a in arcs0 && a !in arcs ::
          a.to == con.from && a.kind != EMPTY && Combine(con, a) != SATISFIED && PulledPast(states, arcs, con, a))
  }

  lemma PropagatedOne(states: seq<nat>, arcs0: set<Arc>, arcs: set<Arc>, arcs': set<Arc>, con: Arc, a: Arc, s: nat)
    requires Backward(con.kind) && Propagated(states, arcs0, arcs, con)
    requires a in arcs && a.to == con.from && a.from != con.from && a.kind != EMPTY && Combine(con, a) != SATISFIED
    requires Combine(con, a) == INCOMPATIBLE ==> arcs' == arcs - {a}
    requires Combine(con, a) == COMPATIBLE ==>
               s !in states && arcs' == arcs - {a} + {a.(from := s, to := con.to), con.(from := a.from, to := s)}
    ensures Propagated(states, arcs0, arcs', con)
  {
    assert a in arcs0;
    forall b | b in arcs' && b !in arcs0
      ensures b.to != con.from && Made(states, arcs0, con, b)
    {
      if b !in arcs {
        assert MadeOf(states, con, a, b);
      }
    }
    forall c | c in arcs0 && c !in arcs'
      ensures c.to == con.from && c.kind != EMPTY && Combine(con, c) != SATISFIED && PulledPast(states, arcs', con, c)
    {
      if c != a && Combine(con, c) == COMPATIBLE {
        var z :| z !in states && con.(from := c.from, to := z) in arcs && c.(from := z, to := con.to) in arcs;
        assert con.(from := c.from, to := z) in arcs' && c.(from := z, to := con.to) in arcs';
      }
    }
  }

  /** Propagate con into the inarcs of its source. */
  method PropagateBack(n: Nfa, con: Arc)
    requires n.Valid() && Pullable(n.G()) && OnlyOut(n.G(), con) && Backward(con.kind) && !n.Flag(con.from)
    modifies n
    ensures n.Valid() && Pullable(n.G()) && OnlyOut(n.G(), con) && SameLanguage(old(n.G()), n.G())
    ensures NothingNew(old(n.arcs), old(n.tmp), n.arcs, n.tmp)
    ensures forall b | b in n.arcs && b.to == con.from :: b.kind != EMPTY && Combine(con, b) == SATISFIED
    ensures Propagated(old(n.states), old(n.arcs), n.arcs, con)
    ensures forall x | x in old(n.states) :: x in n.states
  {
    n.Ends(con);
    n.Ins(con.from);
    var chain := n.ins[con.from];
    for i := 0 to |chain|
      invariant n.Valid() && Pullable(n.G()) && OnlyOut(n.G(), con) && SameLanguage(old(n.G()), n.G())
      invariant NothingNew(old(n.arcs), old(n.tmp), n.arcs, n.tmp)
      invariant forall k | i <= k < |chain| :: chain[k] in Into(n.arcs, con.from)
      invariant forall b | b in Into(n.arcs, con.from) :: b in chain[i..] || Combine(con, b) == SATISFIED
      invariant Propagated(old(n.states), old(n.arcs), n.arcs, con)
      invariant forall x | x in old(n.states) :: x in n.states
    {
      var a := chain[i];
      assert a in Into(n.arcs, con.from);
      assert chain[i..] == [a] + chain[i + 1..];
      ghost var arcs := n.arcs;
      match Combine(con, a)
      case INCOMPATIBLE =>
        DestroyBack(n, con, a);
        PropagatedOne(old(n.states), old(n.arcs), arcs, n.arcs, con, a, 0);
      case SATISFIED =>
      case COMPATIBLE =>
        var s := SwapBack(n, con, a);
        PropagatedOne(old(n.states), old(n.arcs), arcs, n.arcs, con, a, s);
    }
    assert forall b | b in n.arcs && b.to == con.from :: b in Into(n.arcs, con.from);
  }

  lemma PullSatisfiedShape(g: Net, h: Net, con: Arc)
    requires Shaped(g) && SameEnds(g, h) && OnlyOut(g, con) && Backward(con.kind) && Inner(g, con.from)
    requires h.arcs == g.arcs - {con} - Into(g.arcs, con.from) + Redirected(g.arcs, con.from, con.to)
    ensures Derived(g, h)
  {
    assert ArcShaped(g, con);
    forall a | a in h.arcs
      ensures exists c :: c in g.arcs && Relocated(g, c, a)
    {
      RedirectedHas(g.arcs, con.from, con.to, a);
      assert Relocated(g, if a in g.arcs then a else a.(to := con.from), a);
    }
  }

  /** The arcs after the last steps of `pull`, con being the only outarc of its source. */
  ghost predicate Finish(states: seq<nat>, arcs0: set<Arc>, arcs: set<Arc>, con: Arc)
    requires Backward(con.kind)
  {
    && con.from in states && con.to in states && con.from != con.to
    && (forall b | b in arcs :: (b in arcs0 && b != con && b.to != con.from) || Made(states, arcs0, con, b))
    && (forall a | a in arcs0 && a != con && a.to != con.from :: a in arcs)
    && (forall a | a in arcs0 && a.to == con.from :: PulledPast(states, arcs, con, a))
  }

  lemma FinishedBack(states: seq<nat>, arcs0: set<Arc>, arcs: set<Arc>, arcs': set<Arc>, con: Arc)
    requires Backward(con.kind) && con in arcs && Propagated(states, arcs0, arcs, con)
    requires forall a | a in arcs0 && a.from == con.from :: a == con
    requires forall b | b in arcs && b.to == con.from :: b.kind != EMPTY && Combine(con, b) == SATISFIED
    requires arcs' == arcs - {con} - Into(arcs, con.from) + Redirected(arcs, con.from, con.to)
    ensures Finish(states, arcs0, arcs', con)
  {
    forall b | b in arcs'
      ensures (b in arcs0 && b != con && b.to != con.from) || Made(states, arcs0, con, b)
    {
      RedirectedHas(arcs, con.from, con.to, b);
      if b !in arcs - {con} - Into(arcs, con.from) {
        assert MadeOf(states, con, b.(to := con.from), b);
      }
    }
    forall a | a in arcs0 && a.to == con.from
      ensures PulledPast(states, arcs', con, a)
    {
      RedirectedHas(arcs, con.from, con.to, a.(to := con.to));
      if a !in arcs && Combine(con, a) == COMPATIBLE {
        var z :| z !in states && con.(from := a.from, to := z) in arcs && a.(from := z, to := con.to) in arcs;
        assert con.(from := a.from, to := z) in arcs' && a.(from := z, to := con.to) in arcs';
      }
    }
  }

  ghost predicate FinishFolded(states: seq<nat>, arcs0: set<Arc>, arcs: set<Arc>, con: Arc)
    requires Backward(con.kind)
  {
    forall u {:trigger Glance(u)} :: Glance(u) ==> Finish(states, arcs0, arcs, con)
  }

  method FinishPull(n: Nfa, con: Arc)
    requires n.Valid() && Pullable(n.G()) && OnlyOut(n.G(), con) && Backward(con.kind) && !n.Flag(con.from)
    modifies n
    ensures n.Valid() && Pullable(n.G()) && SameLanguage(old(n.G()), n.G())
    ensures NothingNew(old(n.arcs), old(n.tmp), n.arcs, n.tmp)
    ensures FinishFolded(old(n.states), old(n.arcs), n.arcs, con)
    ensures forall x | x in old(n.states) :: x in n.states <==> x != con.from
  {
    PropagateBack(n, con);
    ghost var arcs := n.arcs;
    IncorporateBack(n, con);
    FinishedBack(old(n.states), old(n.arcs), arcs, n.arcs, con);
  }

  /** What is made of an arc into the clone is made of an arc into the source. */
  lemma MadeBefore(states: seq<nat>, arcs0: set<Arc>, arcs1: set<Arc>, states2: seq<nat>, arcs2: set<Arc>, con: Arc, c: Arc, b: Arc)
    requires Backward(con.kind) && con.from != con.to && Within(arcs0, states) && forall x | x in states :: x in states2
    requires Uncircled(arcs0, arcs1, con) && Cloned(states, arcs1, arcs2, con, c) && Made(states2, arcs2, c, b)
    ensures b != con && !Circular(con, b) && Made(states, arcs0, con, b)
  {
    var a :| a in arcs2 && a.to == c.from && !Circular(c, a) && MadeOf(states2, c, a, b);
    var a0 := a.(to := con.from);
    RedirectedHas(arcs1, con.from, c.from, a);
    assert a0 in arcs1;
    assert Combine(con, a0) == Combine(c, a);
    assert MadeOf(states, con, a0, b);
  }

  /** What dropping circular constraints, cloning and the last steps come to. */
  lemma AllPulled(states: seq<nat>, arcs0: set<Arc>, arcs1: set<Arc>, states2: seq<nat>, arcs2: set<Arc>, arcs: set<Arc>, con: Arc, c: Arc)
    requires Backward(con.kind) && con.from != con.to && Within(arcs0, states)
    requires Uncircled(arcs0, arcs1, con) && Cloned(states, arcs1, arcs2, con, c)
    requires FinishFolded(states2, arcs2, arcs, c) && forall x | x in states :: x in states2
    ensures LastOut(arcs0, con) <==> c == con
    ensures Pulled(states, arcs0, arcs, con)
  {
    assert Glance(0);
    forall b | b in arcs && (b == con || b !in arcs0 || Circular(con, b))
      ensures b != con && !Circular(con, b) && Made(states, arcs0, con, b)
    {
      RedirectedHas(arcs1, con.from, c.from, b);
      assert Made(states2, arcs2, c, b);
      MadeBefore(states, arcs0, arcs1, states2, arcs2, con, c, b);
    }
    forall a | a in arcs0 && a.to == con.from && !Circular(con, a)
      ensures PulledPast(states, arcs, con, a)
    {
      var b := a.(to := c.from);
      RedirectedHas(arcs1, con.from, c.from, b);
      assert b in arcs2 && PulledPast(states2, arcs, c, b);
      assert Combine(con, a) == Combine(c, b);
    }
  }

  /** The main part of `pull`. */
  method PullThrough(n: Nfa, con: Arc)
    requires n.Valid() && con in n.arcs && Pullable(n.G()) && Backward(con.kind)
    requires con.from != con.to && con.from in n.states && !n.Flag(con.from)
    modifies n
    ensures n.Valid() && Pullable(n.G()) && SameLanguage(old(n.G()), n.G())
    ensures NothingNew(old(n.arcs), old(n.tmp), n.arcs, n.tmp)
    ensures Pulled(old(n.states), old(n.arcs), n.arcs, con)
    ensures forall x | x in old(n.states) :: x in n.states <==> !(x == con.from && LastOut(old(n.arcs), con))
  {
    n.States();
    DropCircularOuts(n, con);
    Fewer(old(n.G()), n.G());
    PullUncircled(n, con, old(n.states), old(n.arcs));
  }

  method PullUncircled(n: Nfa, con: Arc, ghost states0: seq<nat>, ghost arcs0: set<Arc>)
    requires n.Valid() && Pullable(n.G()) && Backward(con.kind) && con.from != con.to && !n.Flag(con.from)
    requires n.states == states0 && Uncircled(arcs0, n.arcs, con) && Within(arcs0, states0)
    modifies n
    ensures n.Valid() && Pullable(n.G()) && SameLanguage(old(n.G()), n.G())
    ensures NothingNew(old(n.arcs), old(n.tmp), n.arcs, n.tmp)
    ensures Pulled(states0, arcs0, n.arcs, con)
    ensures forall x | x in states0 :: x in n.states <==> !(x == con.from && LastOut(arcs0, con))
  {
    var c := CloneFrom(n, con);
    ghost var states2, arcs2 := n.states, n.arcs;
    FinishPull(n, c);
    AllPulled(states0, arcs0, old(n.arcs), states2, arcs2, n.arcs, con, c);
  }

  /** `pull`: move a backward constraint past its source state. It fails only next to the start; at most that state is
      deleted, if con was its last outarc. */
  method Pull(n: Nfa, con: Arc) returns (done: bool)
    requires n.Valid() && con in n.arcs && Pullable(n.G()) && Backward(con.kind)
    modifies n
    ensures n.Valid() && Pullable(n.G()) && SameLanguage(old(n.G()), n.G())
    ensures NothingNew(old(n.arcs), old(n.tmp), n.arcs, n.tmp)
    ensures done <==> con.from == con.to || con.from != n.pre
    ensures !done ==> n.arcs == old(n.arcs) && n.states == old(n.states)
    ensures done ==> con !in n.arcs
    ensures con.from == con.to ==> n.arcs == old(n.arcs) - {con}
    ensures done && con.from != con.to ==> Pulled(old(n.states), old(n.arcs), n.arcs, con)
    ensures forall b | b in n.arcs && b !in old(n.arcs) && Backward(b.kind) ::
              b.kind == con.kind && b.co == con.co && exists a :: a in old(n.arcs) && a.to == con.from && a.from == b.from
    ensures forall x | x in old(n.states) ::
              x !in n.states <==> x == con.from && con.from != con.to && con.from != n.pre && LastOut(old(n.arcs), con)
                                  && exists a :: a in old(n.arcs) && a.to == con.from
  {
    ghost var g := n.G();
    assert ArcShaped(g, con);
    n.Ends(con);
    if con.from == con.to {
      n.FreeArc(con);
      DropLoop(g, n.G(), con);
      Fewer(g, n.G());
      return true;
    }
    if n.Flag(con.from) {
      return false;
    }
    n.Ins(con.from);
    if |n.ins[con.from]| == 0 {
      n.FreeArc(con);
      DropUnreached(g, n.G(), con.from);
      Fewer(g, n.G());
      return true;
    }
    assert n.ins[con.from][0] in n.arcs;
    PullThrough(n, con);
    forall b | b in n.arcs && b !in old(n.arcs) && Backward(b.kind)
      ensures b.kind == con.kind && b.co == con.co && exists a :: a in old(n.arcs) && a.to == con.from && a.from == b.from
    {
      PulledBackward(old(n.states), old(n.arcs), n.arcs, con, b);
    }
    done := true;
  }

  lemma Fewer(g: Net, h: Net)
    requires SameEnds(g, h) && h.arcs <= g.arcs
    ensures Derived(g, h)
    ensures Pullable(g) ==> Pullable(h)
  {
    forall a | a in h.arcs
      ensures exists c :: c in g.arcs && Relocated(g, c, a)
    {
      assert Relocated(g, a, a);
    }
    DerivedKeeps(g, h);
  }

  /** Remaining inarcs incorporate the constraint; its source goes. */
  method IncorporateBack(n: Nfa, con: Arc)
    requires n.Valid() && Pullable(n.G()) && OnlyOut(n.G(), con) && Backward(con.kind) && !n.Flag(con.from)
    requires forall b | b in n.arcs && b.to == con.from :: b.kind != EMPTY && Combine(con, b) == SATISFIED
    modifies n
    ensures n.Valid() && Pullable(n.G()) && SameLanguage(old(n.G()), n.G())
    ensures NothingNew(old(n.arcs), old(n.tmp), n.arcs, n.tmp)
    ensures n.arcs == old(n.arcs) - {con} - Into(old(n.arcs), con.from) + Redirected(old(n.arcs), con.from, con.to)
    ensures forall x :: x in n.states <==> x in old(n.states) && x != con.from
  {
    ghost var g := n.G();
    n.Ends(con);
    n.MoveIns(con.from, con.to);
    n.DropState(con.from);
    DroppedSource(g, n.arcs, con);
    PullSatisfied(g, n.G(), con);
    PullSatisfiedShape(g, n.G(), con);
    DerivedKeeps(g, n.G());
  }

  lemma DroppedSource(g: Net, arcs: set<Arc>, con: Arc)
    requires OnlyOut(g, con)
    requires var moved := g.arcs - Into(g.arcs, con.from) + Redirected(g.arcs, con.from, con.to);
      arcs == moved - Into(moved, con.from) - OutOf(moved, con.from)
    ensures arcs == g.arcs - {con} - Into(g.arcs, con.from) + Redirected(g.arcs, con.from, con.to)
  {
    forall a
      ensures a in arcs <==> a in g.arcs - {con} - Into(g.arcs, con.from) + Redirected(g.arcs, con.from, con.to)
    {
      RedirectedHas(g.arcs, con.from, con.to, a);
    }
  }
}
