/** Deleting part of an NFA (regc_nfa.c): `delsub`, `deltraverse`. */
module NfaDelete {
  import opened Nets
  import opened NetRewrites
  import opened NetSimplify
  import opened NetFragments
  import opened Nfas
  import opened NfaCleanup

  /** What a deletion in progress has done to the arcs and states there were: s apart, deleted arcs led to states that
      are marked or have lost their outarcs; of the latter those without inarcs are gone. */
  ghost predicate Deleted(arcs0: set<Arc>, arcs: set<Arc>, states: seq<nat>, tmp: map<nat, nat>, s: int) {
    && arcs <= arcs0
    && (forall a | a in arcs0 - arcs && a.to !in tmp :: OutOf(arcs, a.to) == {})
    && (forall a | a in arcs0 - arcs && a.to !in tmp && a.to != s && Into(arcs, a.to) == {} :: a.to !in states)
  }

  /** The part between lp and rp is being deleted: rp is marked. */
  ghost predicate Deleting(n: Nfa, lp: nat, B: set<nat>, rp: nat)
    reads n
  {
    && n.Valid() && rp in n.tmp && rp !in B && rp != lp && n.pre !in B && n.post !in B
    && forall a | a in n.arcs :: a.from == lp || a.from in B ==> a.to in B || a.to == rp
  }

  lemma DeletedJoin(arcs0: set<Arc>, arcs1: set<Arc>, states1: seq<nat>, arcs2: set<Arc>, states2: seq<nat>, tmp: map<nat, nat>, t: nat)
    requires Deleted(arcs0, arcs1, states1, tmp, NULL) && Deleted(arcs1, arcs2, states2, tmp, t)
    requires forall x | x in states2 :: x in states1
    ensures Deleted(arcs0, arcs2, states2, tmp, t)
  {
    forall a | a in arcs0 - arcs2 && a.to !in tmp
      ensures OutOf(arcs2, a.to) == {}
      ensures a.to != t && Into(arcs2, a.to) == {} ==> a.to !in states2
    {
      if a in arcs0 - arcs1 {
        assert OutOf(arcs2, a.to) <= OutOf(arcs1, a.to);
        if Into(arcs1, a.to) != {} && Into(arcs2, a.to) == {} {
          var b :| b in Into(arcs1, a.to);
          assert b !in Into(arcs2, a.to) && b in arcs1 - arcs2;
        }
      }
    }
  }

  lemma DeletedArc(arcs0: set<Arc>, arcs: set<Arc>, states: seq<nat>, tmp: map<nat, nat>, a: Arc, states': seq<nat>)
    requires Deleted(arcs0, arcs, states, tmp, a.to) && a in arcs && (a.to !in tmp ==> OutOf(arcs, a.to) == {})
    requires forall x | x in states' :: x in states
    requires a.to !in tmp && Into(arcs - {a}, a.to) == {} ==> a.to !in states'
    ensures Deleted(arcs0, arcs - {a}, states', tmp, NULL)
  {
    forall b | b in arcs0 - (arcs - {a}) && b.to !in tmp
      ensures OutOf(arcs - {a}, b.to) == {}
      ensures Into(arcs - {a}, b.to) == {} ==> b.to !in states'
    {
      if b.to != a.to {
        assert OutOf(arcs - {a}, b.to) <= OutOf(arcs, b.to) && Into(arcs - {a}, b.to) == Into(arcs, b.to);
      } else {
        assert OutOf(arcs - {a}, b.to) <= OutOf(arcs, b.to);
      }
    }
  }

  /** `deltraverse`: destroy all outarcs of s, and what that leaves unconnected. */
  method DelTraverse(n: Nfa, s: nat, ghost lp: nat, ghost B: set<nat>, ghost rp: nat)
    requires Deleting(n, lp, B, rp) && s in n.states && (s == lp || s in B || s == rp)
    modifies n`states, n`outs, n`ins, n`tmp, n`arcs, n`colors
    ensures Deleting(n, lp, B, rp) && n.tmp == old(n.tmp) && s in n.states
    ensures Deleted(old(n.arcs), n.arcs, n.states, n.tmp, s)
    ensures s !in n.tmp ==> OutOf(n.arcs, s) == {}
    ensures forall a | a in old(n.arcs) - n.arcs :: (a.from == lp || a.from in B) && a.from !in n.tmp
    ensures forall x | x in n.states :: x in old(n.states)
    ensures forall x | x in old(n.states) && x !in n.states :: x in B && x !in n.tmp
    decreases B + {lp} - n.tmp.Keys, 0
  {
    n.Outs(s);
    if |n.outs[s]| == 0 {
      assert OutOf(n.arcs, s) == {};
      return;
    }
    if s in n.tmp {
      return;
    }
    SetTmp(n, s, s);
    while n.outs[s] != []
      invariant Deleting(n, lp, B, rp) && n.tmp == old(n.tmp)[s := s] && s in n.states
      invariant Deleted(old(n.arcs), n.arcs, n.states, n.tmp, NULL)
      invariant forall a | a in old(n.arcs) - n.arcs :: (a.from == lp || a.from in B) && a.from !in old(n.tmp)
      invariant forall x | x in n.states :: x in old(n.states)
      invariant forall x | x in old(n.states) && x !in n.states :: x in B && x !in old(n.tmp)
      decreases n.arcs
    {
      n.Outs(s);
      assert s in B + {lp} - old(n.tmp).Keys;
      DelArc(n, n.outs[s][0], lp, B, rp);
    }
    n.Outs(s);
    assert OutOf(n.arcs, s) == {};
    ClearTmp(n, s);
    assert n.tmp == old(n.tmp);
  }

  /** An arc whose destination has no outarcs left, unless marked, is freed; the destination goes if that was its last
      arc. */
  method DropArc(n: Nfa, a: Arc, ghost lp: nat, ghost B: set<nat>, ghost rp: nat)
    requires Deleting(n, lp, B, rp) && a in n.arcs && (a.from == lp || a.from in B)
    requires a.to !in n.tmp ==> OutOf(n.arcs, a.to) == {}
    modifies n`states, n`outs, n`ins, n`tmp, n`arcs, n`colors
    ensures Deleting(n, lp, B, rp) && n.tmp == old(n.tmp) && n.arcs == old(n.arcs) - {a}
    ensures a.to !in n.tmp && Into(n.arcs, a.to) == {} ==> a.to !in n.states
    ensures forall x | x in n.states :: x in old(n.states)
    ensures forall x | x in old(n.states) && x !in n.states :: x == a.to && x in B && x !in n.tmp
  {
    var to := a.to;
    n.Ends(a);
    ghost var arcs1 := n.arcs;
    n.FreeArc(a);
    n.Ins(to);
    if |n.ins[to]| == 0 && to !in n.tmp {
      Isolated(n, to, arcs1, a);
      n.FreeState(to);
    } else if to !in n.tmp {
      assert n.ins[to][0] in Into(n.arcs, to);
    }
  }

  /** Destroy one outarc, and first those of its destination. */
  method DelArc(n: Nfa, a: Arc, ghost lp: nat, ghost B: set<nat>, ghost rp: nat)
    requires Deleting(n, lp, B, rp) && a in n.arcs && (a.from == lp || a.from in B) && a.from in n.tmp
    modifies n`states, n`outs, n`ins, n`tmp, n`arcs, n`colors
    ensures Deleting(n, lp, B, rp) && n.tmp == old(n.tmp) && a !in n.arcs
    ensures forall arcs0 | Deleted(arcs0, old(n.arcs), old(n.states), n.tmp, NULL) :: Deleted(arcs0, n.arcs, n.states, n.tmp, NULL)
    ensures n.arcs <= old(n.arcs)
    ensures forall b | b in old(n.arcs) - n.arcs :: b == a || ((b.from == lp || b.from in B) && b.from !in n.tmp)
    ensures forall x | x in n.states :: x in old(n.states)
    ensures forall x | x in old(n.states) && x !in n.states :: x in B && x !in n.tmp
    decreases B + {lp} - n.tmp.Keys, 1
  {
    n.Ends(a);
    DelTraverse(n, a.to, lp, B, rp);
    ghost var arcs1, states1 := n.arcs, n.states;
    DropArc(n, a, lp, B, rp);
    forall arcs0 | Deleted(arcs0, old(n.arcs), old(n.states), n.tmp, NULL)
      ensures Deleted(arcs0, n.arcs, n.states, n.tmp, NULL)
    {
      DeletedJoin(arcs0, old(n.arcs), old(n.states), arcs1, states1, n.tmp, a.to);
      DeletedArc(arcs0, arcs1, states1, n.tmp, a, n.states);
    }
  }

  lemma Isolated(n: Nfa, to: nat, arcs1: set<Arc>, a: Arc)
    requires n.Valid() && to in n.states && n.ins[to] == [] && OutOf(arcs1, to) == {} && n.arcs == arcs1 - {a}
    ensures forall b | b in n.arcs :: b.from != to && b.to != to
  {
    n.Ins(to);
    forall b | b in n.arcs
      ensures b.from != to && b.to != to
    {
      assert b.from == to ==> b in OutOf(arcs1, to);
    }
  }

  /** Everything inside can be got to from lp. */
  ghost predicate AllAfter(g: Net, lp: nat, B: set<nat>) {
    forall x | x in B :: Connected(FragNet(g, lp, B), lp, x)
  }

  /** `delsub`: delete the part between lp and rp, every state of which comes after lp. */
  method DelSub(n: Nfa, lp: nat, rp: nat, ghost B: set<nat>)
    requires n.Valid() && n.tmp == map[] && Frag(n.G(), lp, B, rp) && lp in n.states && rp in n.states
    requires AllAfter(n.G(), lp, B)
    modifies n`states, n`outs, n`ins, n`tmp, n`arcs, n`colors
    ensures n.Valid() && n.tmp == map[] && n.arcs == Outside(old(n.G()), lp, B)
    ensures forall x :: x in n.states <==> x in old(n.states) && x !in B
  {
    ghost var g := n.G();
    n.States();
    forall a | a in n.arcs && (a.from == lp || a.from in B)
      ensures a.to in B || a.to == rp
    {
      assert FragArc(a, lp, B, rp);
    }
    SetTmp(n, rp, rp);
    DelTraverse(n, lp, lp, B, rp);
    AllGone(g, n.arcs, n.states, n.tmp, lp, B, rp);
    ClearTmp(n, rp);
    assert n.tmp == map[];
  }

  lemma AllGone(g: Net, arcs: set<Arc>, states: seq<nat>, tmp: map<nat, nat>, lp: nat, B: set<nat>, rp: nat)
    requires Frag(g, lp, B, rp) && AllAfter(g, lp, B) && tmp.Keys == {rp}
    requires Deleted(g.arcs, arcs, states, tmp, lp) && OutOf(arcs, lp) == {}
    requires forall a | a in g.arcs - arcs :: a.from == lp || a.from in B
    ensures arcs == Outside(g, lp, B) && forall x | x in B :: x !in states
  {
    var S := set x | x in B + {lp, rp} && (x == rp || OutOf(arcs, x) == {});
    var f := FragNet(g, lp, B);
    forall a | a in f.arcs && a.from in S
      ensures a !in arcs && a.to in S
    {
      assert FragArc(a, lp, B, rp);
      assert a in arcs ==> a in OutOf(arcs, a.from);
    }
    forall x | x in B
      ensures OutOf(arcs, x) == {}
    {
      var way :| Way(f, lp, x, way);
      WayForward(f, S, lp, x, way);
    }
    forall a | a in g.arcs
      ensures a in arcs <==> a in Outside(g, lp, B)
    {
      assert a in arcs ==> a in OutOf(arcs, a.from);
    }
    forall x | x in B
      ensures x !in states
    {
      var way :| Way(f, lp, x, way);
      var a := LastOnWay(f, lp, x, way);
      assert FragArc(a, lp, B, rp);
      assert Into(arcs, x) == {};
    }
  }

  lemma {:induction false} LastOnWay(g: Net, x: nat, y: nat, way: seq<Arc>) returns (a: Arc)
    requires Way(g, x, y, way) && x != y
    ensures a in g.arcs && a.to == y
    decreases |way|
  {
    if way[0].to == y {
      a := way[0];
    } else {
      a := LastOnWay(g, way[0].to, y, way[1..]);
    }
  }
}
