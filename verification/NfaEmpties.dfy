/** Optimizing out EMPTY arcs (regc_nfa.c). */
module NfaEmpties {
  import opened Nets
  import opened NetRewrites
  import opened NetSimplify
  import opened Nfas

  lemma BypassLeftShape(g: Net, h: Net, e: Arc)
    requires Shaped(g) && SameEnds(g, h) && e in g.arcs && e.kind == EMPTY
    requires h.arcs <= g.arcs + Redirected(g.arcs - {e}, e.from, e.to)
    ensures Derived(g, h)
  {
    assert ArcShaped(g, e);
    forall a | a in h.arcs
      ensures exists c :: c in g.arcs && Relocated(g, c, a)
    {
      RedirectedHas(g.arcs - {e}, e.from, e.to, a);
      assert Relocated(g, if a in g.arcs then a else a.(to := e.from), a);
    }
  }

  lemma BypassRightShape(g: Net, h: Net, e: Arc)
    requires Shaped(g) && SameEnds(g, h) && e in g.arcs && e.kind == EMPTY
    requires h.arcs <= g.arcs + Resourced(g.arcs - {e}, e.to, e.from)
    ensures Derived(g, h)
  {
    assert ArcShaped(g, e);
    forall a | a in h.arcs
      ensures exists c :: c in g.arcs && Relocated(g, c, a)
    {
      ResourcedHas(g.arcs - {e}, e.to, e.from, a);
      assert Relocated(g, if a in g.arcs then a else a.(from := e.to), a);
    }
  }

  /** e is the only outarc of its source, */
  ghost predicate OnlyFrom(arcs: set<Arc>, e: Arc) {
    forall a | a in arcs && a.from == e.from :: a == e
  }

  /** or the only inarc of its destination. */
  ghost predicate OnlyTo(arcs: set<Arc>, e: Arc) {
    forall a | a in arcs && a.to == e.to :: a == e
  }

  /** e gone and the inarcs of its source led past it: copied, or moved where nothing else leaves the source. */
  ghost function PastSource(arcs: set<Arc>, e: Arc): set<Arc> {
    arcs - {e} - (if OnlyFrom(arcs, e) then Into(arcs, e.from) else {}) + Redirected(arcs - {e}, e.from, e.to)
  }

  /** The same with the outarcs of its destination. */
  ghost function PastTarget(arcs: set<Arc>, e: Arc): set<Arc> {
    arcs - {e} - (if OnlyTo(arcs, e) then OutOf(arcs, e.to) else {}) + Resourced(arcs - {e}, e.to, e.from)
  }

  /** The end to work on: the one with fewer arcs beside e, and if that does not decide the one with fewer to move. */
  ghost predicate AtSource(arcs: set<Arc>, e: Arc) {
    || |OutOf(arcs, e.from)| < |Into(arcs, e.to)|
    || (|OutOf(arcs, e.from)| == |Into(arcs, e.to)| && |Into(arcs, e.from)| <= |OutOf(arcs, e.to)|)
  }

  lemma {:induction false} ChainSize(c: seq<Arc>, arcs: set<Arc>)
    requires Distinct(c) && forall a :: a in c <==> a in arcs
    ensures |c| == |arcs|
  {
    if c == [] {
      assert arcs == {};
    } else {
      assert c[0] in arcs && c[0] !in c[1..];
      assert forall a :: a in c[1..] <==> a in arcs - {c[0]};
      ChainSize(c[1..], arcs - {c[0]});
    }
  }

  /** The sizes of the chains. */
  lemma ChainSizes(n: Nfa, x: nat)
    requires n.Valid() && x in n.states
    ensures |n.outs[x]| == |OutOf(n.arcs, x)| && |n.ins[x]| == |Into(n.arcs, x)|
  {
    n.Outs(x);
    n.Ins(x);
    ChainSize(n.outs[x], OutOf(n.arcs, x));
    ChainSize(n.ins[x], Into(n.arcs, x));
  }

  /** The arc is back only if a loop at the end worked on is led past it. */
  lemma BackAgain(arcs: set<Arc>, e: Arc)
    requires e in arcs && e.from != e.to
    ensures e in PastSource(arcs, e) <==> e.(to := e.from) in arcs
    ensures e in PastTarget(arcs, e) <==> e.(from := e.to) in arcs
  {
    RedirectedHas(arcs - {e}, e.from, e.to, e);
    ResourcedHas(arcs - {e}, e.to, e.from, e);
  }

  /** Attack from the source of e, which is already off the chains. */
  method UseFrom(n: Nfa, ghost g: Net, e: Arc)
    requires n.Valid() && Shaped(g) && e in g.arcs && e.kind == EMPTY && e.from != e.to
    requires SameEnds(g, n.G()) && n.arcs == g.arcs - {e} && e.from in n.states && e.to in n.states
    modifies n
    ensures n.Valid() && SameLanguage(g, n.G()) && Derived(g, n.G()) && n.tmp.Keys <= old(n.tmp.Keys)
    ensures n.arcs == PastSource(g.arcs, e)
    ensures forall x :: x in n.states <==> x in old(n.states) && !(x == e.from && OnlyFrom(g.arcs, e))
  {
    assert ArcShaped(g, e);
    n.Outs(e.from);
    if |n.outs[e.from]| == 0 {
      n.MoveIns(e.from, e.to);
      Merged(g.arcs, e);
      NoneLeft(g, n.arcs, e);
      n.FreeState(e.from);
      MergeLeft(g, n.G(), e);
    } else {
      assert n.outs[e.from][0] in n.arcs;
      n.CopyIns(e.from, e.to);
      BypassLeft(g, n.G(), e);
    }
    BypassLeftShape(g, n.G(), e);
  }

  /** Taking e off first makes no difference to the arcs moved. */
  lemma Merged(arcs: set<Arc>, e: Arc)
    requires e.from != e.to
    ensures arcs - {e} - Into(arcs - {e}, e.from) == arcs - {e} - Into(arcs, e.from)
    ensures arcs - {e} - OutOf(arcs - {e}, e.to) == arcs - {e} - OutOf(arcs, e.to)
  {}

  lemma NoneLeft(g: Net, arcs: set<Arc>, e: Arc)
    requires e.from != e.to && arcs == g.arcs - {e} - Into(g.arcs, e.from) + Redirected(g.arcs - {e}, e.from, e.to)
    requires forall a | a in g.arcs && a.from == e.from :: a == e
    ensures forall a | a in arcs :: a.from != e.from && a.to != e.from
  {
    forall a | a in arcs
      ensures a.from != e.from && a.to != e.from
    {
      RedirectedHas(g.arcs - {e}, e.from, e.to, a);
    }
  }

  /** Attack from the destination of e. */
  method UseTo(n: Nfa, ghost g: Net, e: Arc)
    requires n.Valid() && Shaped(g) && e in g.arcs && e.kind == EMPTY && e.from != e.to
    requires SameEnds(g, n.G()) && n.arcs == g.arcs - {e} && e.from in n.states && e.to in n.states
    modifies n
    ensures n.Valid() && SameLanguage(g, n.G()) && Derived(g, n.G()) && n.tmp.Keys <= old(n.tmp.Keys)
    ensures n.arcs == PastTarget(g.arcs, e)
    ensures forall x :: x in n.states <==> x in old(n.states) && !(x == e.to && OnlyTo(g.arcs, e))
  {
    assert ArcShaped(g, e);
    n.Ins(e.to);
    if |n.ins[e.to]| == 0 {
      n.MoveOuts(e.to, e.from);
      Merged(g.arcs, e);
      NoneRight(g, n.arcs, e);
      n.FreeState(e.to);
      MergeRight(g, n.G(), e);
    } else {
      assert n.ins[e.to][0] in n.arcs;
      n.CopyOuts(e.to, e.from);
      BypassRight(g, n.G(), e);
    }
    BypassRightShape(g, n.G(), e);
  }

  lemma NoneRight(g: Net, arcs: set<Arc>, e: Arc)
    requires e.from != e.to && arcs == g.arcs - {e} - OutOf(g.arcs, e.to) + Resourced(g.arcs - {e}, e.to, e.from)
    requires forall a | a in g.arcs && a.to == e.to :: a == e
    ensures forall a | a in arcs :: a.from != e.to && a.to != e.to
  {
    forall a | a in arcs
      ensures a.from != e.to && a.to != e.to
    {
      ResourcedHas(g.arcs - {e}, e.to, e.from, a);
    }
  }

  /** `unempty`: an EMPTY arc goes, and the arcs at the end of it with fewer of them are led past it. If one of these is an
      EMPTY loop, the arc is there again. */
  method Unempty(n: Nfa, e: Arc)
    requires n.Valid() && Shaped(n.G()) && e in n.arcs && e.kind == EMPTY
    modifies n
    ensures n.Valid() && Shaped(n.G()) && SameLanguage(old(n.G()), n.G()) && Derived(old(n.G()), n.G())
    ensures NothingNew(old(n.arcs), old(n.tmp), n.arcs, n.tmp)
    ensures e.from == e.to ==> n.arcs == old(n.arcs) - {e}
    ensures e.from != e.to ==> n.arcs == if AtSource(old(n.arcs), e) then PastSource(old(n.arcs), e) else PastTarget(old(n.arcs), e)
    ensures e in n.arcs <==> e.from != e.to && (if AtSource(old(n.arcs), e) then e.(to := e.from) else e.(from := e.to)) in old(n.arcs)
    ensures forall x | x in old(n.states) && x !in n.states ::
              e.from != e.to && if x == e.from then OnlyFrom(old(n.arcs), e) else x == e.to && OnlyTo(old(n.arcs), e)
    ensures forall x | x in n.states :: x in old(n.states)
  {
    ghost var g := n.G();
    assert ArcShaped(g, e);
    n.Ends(e);
    if e.from == e.to {
      n.FreeArc(e);
      DropLoop(g, n.G(), e);
    } else {
      ChainSizes(n, e.from);
      ChainSizes(n, e.to);
      BackAgain(g.arcs, e);
      var nouts, nins := |n.outs[e.from]|, |n.ins[e.to]|;
      var usefrom := true;
      if nouts > nins {
        usefrom := false;
      } else if nouts == nins {
        if |n.ins[e.from]| > |n.outs[e.to]| {
          usefrom := false;
        }
      }
      n.FreeArc(e);
      if usefrom {
        UseFrom(n, g, e);
      } else {
        UseTo(n, g, e);
      }
    }
    if e.from == e.to {
      BypassLeftShape(g, n.G(), e);
    }
    DerivedKeeps(g, n.G());
  }
}
