/** Why removing EMPTY transitions, trimming and splitting (regc_nfa.c, regcomp.c) keep the language. */
module NetSimplify {
  import opened Nets
  import opened NetRewrites

  // ----- removing an EMPTY arc

  /** Bypassing e on the left: whatever enters its source may enter its destination instead. */
  lemma BypassLeft(g: Net, h: Net, e: Arc)
    requires Shaped(g) && SameEnds(g, h) && e in g.arcs && e.kind == EMPTY && e.from != e.to
    requires h.arcs == g.arcs - {e} + Redirected(g.arcs - {e}, e.from, e.to)
    ensures SameLanguage(g, h)
  {
    assert ArcShaped(g, e);
    forall s: Subject
      ensures Accepts(g, s) <==> Accepts(h, s)
    {
      forall a: Arc, q: nat, p: nat {:trigger Fires(g, s, a, q, p)} |
        a in g.arcs && Reached(g, s, Start(g), a.from, q) && Reached(h, s, Start(h), a.from, q) && Fires(g, s, a, q, p)
        ensures Reached(h, s, Start(h), a.to, p)
      {
        if a != e {
          ReachedStep(h, s, Start(h), a, q, p);
        } else {
          BypassedLeft(g, h, s, e, q);
        }
      }
      Simulation(g, h, s);
      BypassLeftBack(g, h, s, e);
    }
  }

  lemma BypassedLeft(g: Net, h: Net, s: Subject, e: Arc, p: nat)
    requires Shaped(g) && SameEnds(g, h) && e in g.arcs && e.kind == EMPTY && e.from != e.to && ArcShaped(g, e)
    requires h.arcs == g.arcs - {e} + Redirected(g.arcs - {e}, e.from, e.to)
    requires Reached(h, s, Start(h), e.from, p)
    ensures Reached(h, s, Start(h), e.to, p)
  {
    var b, q := ReachedLast(h, s, Start(h), e.from, p);
    RedirectedHas(g.arcs - {e}, e.from, e.to, b);
    RedirectedHas(g.arcs - {e}, e.from, e.to, b.(to := e.to));
    MovedFires(g, s, b, b.from, e.to, q, p);
    ReachedStep(h, s, Start(h), b.(to := e.to), q, p);
  }

  lemma BypassLeftBack(g: Net, h: Net, s: Subject, e: Arc)
    requires Shaped(g) && SameEnds(g, h) && e in g.arcs && e.kind == EMPTY && e.from != e.to && ArcShaped(g, e)
    requires forall a | a in h.arcs :: a in g.arcs || a in Redirected(g.arcs - {e}, e.from, e.to)
    ensures Accepts(h, s) ==> Accepts(g, s)
  {
    forall a: Arc, q: nat, p: nat {:trigger Fires(h, s, a, q, p)} |
      a in h.arcs && Reached(h, s, Start(h), a.from, q) && Reached(g, s, Start(g), a.from, q) && Fires(h, s, a, q, p)
      ensures Reached(g, s, Start(g), a.to, p)
    {
      if a in g.arcs {
        ReachedStep(g, s, Start(g), a, q, p);
      } else {
        RedirectedHas(g.arcs - {e}, e.from, e.to, a);
        MovedFires(g, s, a, a.from, e.from, q, p);
        ReachedStep(g, s, Start(g), a.(to := e.from), q, p);
        ReachedStep(g, s, Start(g), e, p, p);
      }
    }
    Simulation(h, g, s);
  }

  /** The same when nothing else leaves its source, which then goes. */
  lemma MergeLeft(g: Net, h: Net, e: Arc)
    requires Shaped(g) && SameEnds(g, h) && e in g.arcs && e.kind == EMPTY && e.from != e.to
    requires forall a | a in g.arcs && a.from == e.from :: a == e
    requires h.arcs == g.arcs - {e} - Into(g.arcs, e.from) + Redirected(g.arcs - {e}, e.from, e.to)
    ensures SameLanguage(g, h)
  {
    assert ArcShaped(g, e);
    forall s: Subject
      ensures Accepts(g, s) <==> Accepts(h, s)
    {
      var inv := (x: nat, p: nat) => Reached(h, s, Start(h), if x == e.from then e.to else x, p);
      ReachedHere(h, s, Start(h));
      forall a: Arc, q: nat, p: nat {:trigger Fires(g, s, a, q, p)} |
        a in g.arcs && Reached(g, s, Start(g), a.from, q) && inv(a.from, q) && Fires(g, s, a, q, p)
        ensures inv(a.to, p)
      {
        if a.to == e.from {
          RedirectedHas(g.arcs - {e}, e.from, e.to, a.(to := e.to));
          MovedFires(g, s, a, a.from, e.to, q, p);
          ReachedStep(h, s, Start(h), a.(to := e.to), q, p);
        } else if a != e {
          ReachedStep(h, s, Start(h), a, q, p);
        }
      }
      Carry(g, h, s, inv);
      BypassLeftBack(g, h, s, e);
    }
  }

  /** Bypassing e on the right: whatever leaves its destination may leave its source instead. */
  lemma BypassRight(g: Net, h: Net, e: Arc)
    requires Shaped(g) && SameEnds(g, h) && e in g.arcs && e.kind == EMPTY && e.from != e.to
    requires h.arcs == g.arcs - {e} + Resourced(g.arcs - {e}, e.to, e.from)
    ensures SameLanguage(g, h)
  {
    assert ArcShaped(g, e);
    forall s: Subject
      ensures Accepts(g, s) <==> Accepts(h, s)
    {
      var inv := (x: nat, p: nat) => Reached(h, s, Start(h), x, p) || (x == e.to && Reached(h, s, Start(h), e.from, p));
      ReachedHere(h, s, Start(h));
      forall a: Arc, q: nat, p: nat {:trigger Fires(g, s, a, q, p)} |
        a in g.arcs && Reached(g, s, Start(g), a.from, q) && inv(a.from, q) && Fires(g, s, a, q, p)
        ensures inv(a.to, p)
      {
        if a != e && Reached(h, s, Start(h), a.from, q) {
          ReachedStep(h, s, Start(h), a, q, p);
        } else if a != e {
          ResourcedHas(g.arcs - {e}, e.to, e.from, a.(from := e.from));
          MovedFires(g, s, a, e.from, a.to, q, p);
          ReachedStep(h, s, Start(h), a.(from := e.from), q, p);
        }
      }
      Carry(g, h, s, inv);
      BypassRightBack(g, h, s, e);
    }
  }

  lemma BypassRightBack(g: Net, h: Net, s: Subject, e: Arc)
    requires Shaped(g) && SameEnds(g, h) && e in g.arcs && e.kind == EMPTY && e.from != e.to && ArcShaped(g, e)
    requires forall a | a in h.arcs :: a in g.arcs || a in Resourced(g.arcs - {e}, e.to, e.from)
    ensures Accepts(h, s) ==> Accepts(g, s)
  {
    forall a: Arc, q: nat, p: nat {:trigger Fires(h, s, a, q, p)} |
      a in h.arcs && Reached(h, s, Start(h), a.from, q) && Reached(g, s, Start(g), a.from, q) && Fires(h, s, a, q, p)
      ensures Reached(g, s, Start(g), a.to, p)
    {
      if a in g.arcs {
        ReachedStep(g, s, Start(g), a, q, p);
      } else {
        ResourcedHas(g.arcs - {e}, e.to, e.from, a);
        MovedFires(g, s, a, e.to, a.to, q, p);
        ReachedStep(g, s, Start(g), e, q, q);
        ReachedStep(g, s, Start(g), a.(from := e.to), q, p);
      }
    }
    Simulation(h, g, s);
  }

  lemma MergeRight(g: Net, h: Net, e: Arc)
    requires Shaped(g) && SameEnds(g, h) && e in g.arcs && e.kind == EMPTY && e.from != e.to
    requires forall a | a in g.arcs && a.to == e.to :: a == e
    requires h.arcs == g.arcs - {e} - OutOf(g.arcs, e.to) + Resourced(g.arcs - {e}, e.to, e.from)
    ensures SameLanguage(g, h)
  {
    assert ArcShaped(g, e);
    forall s: Subject
      ensures Accepts(g, s) <==> Accepts(h, s)
    {
      var inv := (x: nat, p: nat) => Reached(h, s, Start(h), if x == e.to then e.from else x, p);
      ReachedHere(h, s, Start(h));
      forall a: Arc, q: nat, p: nat {:trigger Fires(g, s, a, q, p)} |
        a in g.arcs && Reached(g, s, Start(g), a.from, q) && inv(a.from, q) && Fires(g, s, a, q, p)
        ensures inv(a.to, p)
      {
        if a.from == e.to {
          ResourcedHas(g.arcs - {e}, e.to, e.from, a.(from := e.from));
          MovedFires(g, s, a, e.from, a.to, q, p);
          ReachedStep(h, s, Start(h), a.(from := e.from), q, p);
        } else if a != e {
          ReachedStep(h, s, Start(h), a, q, p);
        }
      }
      Carry(g, h, s, inv);
      BypassRightBack(g, h, s, e);
    }
  }

  // ----- trimming

  /** A way from x to y along the arcs, whatever they demand. */
  ghost predicate Way(g: Net, x: nat, y: nat, way: seq<Arc>)
    decreases |way|
  {
    if way == [] then x == y else way[0] in g.arcs && way[0].from == x && Way(g, way[0].to, y, way[1..])
  }

  ghost predicate Connected(g: Net, x: nat, y: nat) {
    exists way :: Way(g, x, y, way)
  }

  /** On some way from the start to the end. */
  ghost predicate Useful(g: Net, x: nat) {
    Connected(g, g.pre, x) && Connected(g, x, g.post)
  }

  lemma {:induction false} WayJoin(g: Net, x: nat, y: nat, z: nat, v: seq<Arc>, w: seq<Arc>)
    requires Way(g, x, y, v) && Way(g, y, z, w)
    ensures Way(g, x, z, v + w)
    decreases |v|
  {
    if v == [] {
      assert v + w == w;
    } else {
      WayJoin(g, v[0].to, y, z, v[1..], w);
      assert (v + w)[1..] == v[1..] + w;
    }
  }

  lemma ConnectedSelf(g: Net, x: nat)
    ensures Connected(g, x, x)
  {
    assert Way(g, x, x, []);
  }

  lemma ConnectedJoin(g: Net, x: nat, y: nat, z: nat)
    requires Connected(g, x, y) && Connected(g, y, z)
    ensures Connected(g, x, z)
  {
    var v, w :| Way(g, x, y, v) && Way(g, y, z, w);
    WayJoin(g, x, y, z, v, w);
  }

  lemma ConnectedArc(g: Net, a: Arc)
    requires a in g.arcs
    ensures Connected(g, a.from, a.to)
  {
    assert [a][1..] == [];
    assert Way(g, a.to, a.to, [a][1..]);
    assert Way(g, a.from, a.to, [a]);
  }

  /** Dropping states that are on no way from start to end. */
  lemma Trim(g: Net, h: Net)
    requires SameEnds(g, h) && h.arcs <= g.arcs
    requires forall a | a in g.arcs && Useful(g, a.from) && Useful(g, a.to) :: a in h.arcs
    ensures SameLanguage(g, h)
  {
    forall s: Subject
      ensures Accepts(g, s) <==> Accepts(h, s)
    {
      var inv := (x: nat, p: nat) =>
        Connected(g, g.pre, x) && (Connected(g, x, g.post) ==> Reached(h, s, Start(h), x, p));
      ReachedHere(h, s, Start(h));
      ConnectedSelf(g, g.pre);
      forall a: Arc, q: nat, p: nat {:trigger Fires(g, s, a, q, p)} |
        a in g.arcs && Reached(g, s, Start(g), a.from, q) && inv(a.from, q) && Fires(g, s, a, q, p)
        ensures inv(a.to, p)
      {
        ConnectedArc(g, a);
        ConnectedJoin(g, g.pre, a.from, a.to);
        if Connected(g, a.to, g.post) {
          ConnectedJoin(g, a.from, a.to, g.post);
          ReachedStep(h, s, Start(h), a, q, p);
        }
      }
      ConnectedSelf(g, g.post);
      Carry(g, h, s, inv);
      Grow(h, g, s);
    }
  }
}
