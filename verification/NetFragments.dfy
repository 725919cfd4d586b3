/** Parts of an NFA strung between two states, and what can be read on the way across (regcomp.c: quantifiers). */
module NetFragments {
  import opened Nets
  import opened NetRewrites

  /** A part of the NFA between lp and rp with inside B: entered only at lp, left only at rp, which nothing else leads
      to. */
  ghost predicate Frag(g: Net, lp: nat, B: set<nat>, rp: nat) {
    && lp != rp && lp !in B && rp !in B && Inner(g, lp) && Inner(g, rp) && g.pre !in B && g.post !in B
    && forall a | a in g.arcs :: FragArc(a, lp, B, rp)
  }

  ghost predicate FragArc(a: Arc, lp: nat, B: set<nat>, rp: nat) {
    a.from == lp || a.from in B <==> a.to == rp || a.to in B
  }

  /** The arcs of the part, and the others. */
  ghost function Inside(g: Net, lp: nat, B: set<nat>): set<Arc> {
    set a | a in g.arcs && (a.from == lp || a.from in B)
  }

  ghost function Outside(g: Net, lp: nat, B: set<nat>): set<Arc> {
    g.arcs - Inside(g, lp, B)
  }

  ghost function FragNet(g: Net, lp: nat, B: set<nat>): Net {
    g.(arcs := Inside(g, lp, B))
  }

  /** From lp at p, one can get across to rp at q. */
  ghost predicate Passes(g: Net, s: Subject, lp: nat, B: set<nat>, rp: nat, p: nat, q: nat) {
    Reached(FragNet(g, lp, B), s, Config(lp, p), rp, q)
  }

  // ----- getting from one part's reachability to another's

  /** Whatever is reached from c in g has its image under f reached from d in h. */
  lemma Mapped(g: Net, h: Net, s: Subject, c: Config, d: Config, f: nat -> nat)
    requires Reached(h, s, d, f(c.state), c.pos)
    requires forall a: Arc, q: nat, p: nat {:trigger Fires(g, s, a, q, p)} |
      a in g.arcs && Reached(g, s, c, a.from, q) && Reached(h, s, d, f(a.from), q) && Fires(g, s, a, q, p) :: Reached(h, s, d, f(a.to), p)
    ensures forall x: nat, p: nat | Reached(g, s, c, x, p) :: Reached(h, s, d, f(x), p)
  {
    ReachedInduction(g, s, c, (x: nat, p: nat) => Reached(h, s, d, f(x), p));
  }

  /** Getting on from where one got. */
  lemma ReachedOn(g: Net, s: Subject, c: Config, d: Config)
    requires Reached(g, s, c, d.state, d.pos)
    ensures forall x: nat, p: nat | Reached(g, s, d, x, p) :: Reached(g, s, c, x, p)
  {
    forall a: Arc, q: nat, p: nat {:trigger Fires(g, s, a, q, p)} |
      a in g.arcs && Reached(g, s, d, a.from, q) && Reached(g, s, c, a.from, q) && Fires(g, s, a, q, p)
      ensures Reached(g, s, c, a.to, p)
    {
      ReachedStep(g, s, c, a, q, p);
    }
    Mapped(g, g, s, d, c, x => x);
  }

  lemma ReachedMore(g: Net, h: Net, s: Subject, c: Config)
    requires SameEnds(g, h) && g.arcs <= h.arcs
    ensures forall x: nat, p: nat | Reached(g, s, c, x, p) :: Reached(h, s, c, x, p)
  {
    ReachedHere(h, s, c);
    forall a: Arc, q: nat, p: nat {:trigger Fires(g, s, a, q, p)} |
      a in g.arcs && Reached(g, s, c, a.from, q) && Reached(h, s, c, a.from, q) && Fires(g, s, a, q, p)
      ensures Reached(h, s, c, a.to, p)
    {
      ReachedStep(h, s, c, a, q, p);
    }
    Mapped(g, h, s, c, c, x => x);
  }

  // ----- moving the ends

  /** The start has moved from lp to z, which the arcs of the part now leave. */
  lemma MovedStart(g: Net, h: Net, lp: nat, B: set<nat>, rp: nat, z: nat)
    requires Frag(g, lp, B, rp) && SameEnds(g, h) && Unused(g, z) && z != lp && z != rp && z !in B
    requires h.arcs == g.arcs - OutOf(g.arcs, lp) + Resourced(g.arcs, lp, z)
    ensures Frag(h, z, B, rp) && Outside(h, z, B) == Outside(g, lp, B)
    ensures forall s: Subject, p: nat, q: nat :: Passes(h, s, z, B, rp, p, q) <==> Passes(g, s, lp, B, rp, p, q)
  {
    forall a
      ensures a in h.arcs <==> (a in g.arcs && a.from != lp) || (a.from == z && a.(from := lp) in g.arcs)
    {
      ResourcedHas(g.arcs, lp, z, a);
    }
    forall a | a in h.arcs
      ensures FragArc(a, z, B, rp)
    {
      assert a.from == z ==> FragArc(a.(from := lp), lp, B, rp);
    }
    forall s: Subject, p: nat, q: nat
      ensures Passes(h, s, z, B, rp, p, q) <==> Passes(g, s, lp, B, rp, p, q)
    {
      MovedStartForth(g, h, s, lp, B, rp, z, p);
      MovedStartBack(g, h, s, lp, B, rp, z, p);
    }
  }

  lemma MovedStartForth(g: Net, h: Net, s: Subject, lp: nat, B: set<nat>, rp: nat, z: nat, p0: nat)
    requires Frag(g, lp, B, rp) && SameEnds(g, h) && Unused(g, z) && z != lp && z != rp && z !in B
    requires forall a :: a in h.arcs <==> (a in g.arcs && a.from != lp) || (a.from == z && a.(from := lp) in g.arcs)
    ensures forall q: nat | Passes(g, s, lp, B, rp, p0, q) :: Passes(h, s, z, B, rp, p0, q)
  {
    var gn, hn, c, d := FragNet(g, lp, B), FragNet(h, z, B), Config(lp, p0), Config(z, p0);
    ReachedHere(hn, s, d);
    forall a: Arc, q: nat, p: nat {:trigger Fires(gn, s, a, q, p)} |
      a in gn.arcs && Reached(gn, s, c, a.from, q) && Reached(hn, s, d, if a.from == lp then z else a.from, q) && Fires(gn, s, a, q, p)
      ensures Reached(hn, s, d, if a.to == lp then z else a.to, p)
    {
      assert FragArc(a, lp, B, rp);
      var b := if a.from == lp then a.(from := z) else a;
      assert b.(from := a.from) == a;
      ReachedStep(hn, s, d, b, q, p);
    }
    Mapped(gn, hn, s, c, d, x => if x == lp then z else x);
  }

  lemma MovedStartBack(g: Net, h: Net, s: Subject, lp: nat, B: set<nat>, rp: nat, z: nat, p0: nat)
    requires Frag(g, lp, B, rp) && SameEnds(g, h) && Unused(g, z) && z != lp && z != rp && z !in B
    requires forall a :: a in h.arcs <==> (a in g.arcs && a.from != lp) || (a.from == z && a.(from := lp) in g.arcs)
    ensures forall q: nat | Passes(h, s, z, B, rp, p0, q) :: Passes(g, s, lp, B, rp, p0, q)
  {
    var gn, hn, c, d := FragNet(g, lp, B), FragNet(h, z, B), Config(lp, p0), Config(z, p0);
    ReachedHere(gn, s, c);
    forall a: Arc, q: nat, p: nat {:trigger Fires(hn, s, a, q, p)} |
      a in hn.arcs && Reached(hn, s, d, a.from, q) && Reached(gn, s, c, if a.from == z then lp else a.from, q) && Fires(hn, s, a, q, p)
      ensures Reached(gn, s, c, if a.to == z then lp else a.to, p)
    {
      var b := if a.from == z then a.(from := lp) else a;
      assert FragArc(b, lp, B, rp);
      ReachedStep(gn, s, c, b, q, p);
    }
    Mapped(hn, gn, s, d, c, x => if x == z then lp else x);
  }

  /** The end has moved from rp to z, which the arcs of the part now enter. */
  lemma MovedEnd(g: Net, h: Net, lp: nat, B: set<nat>, rp: nat, z: nat)
    requires Frag(g, lp, B, rp) && SameEnds(g, h) && Unused(g, z) && z != lp && z != rp && z !in B
    requires h.arcs == g.arcs - Into(g.arcs, rp) + Redirected(g.arcs, rp, z)
    ensures Frag(h, lp, B, z) && Outside(h, lp, B) == Outside(g, lp, B)
    ensures forall s: Subject, p: nat, q: nat :: Passes(h, s, lp, B, z, p, q) <==> Passes(g, s, lp, B, rp, p, q)
  {
    forall a
      ensures a in h.arcs <==> (a in g.arcs && a.to != rp) || (a.to == z && a.(to := rp) in g.arcs)
    {
      RedirectedHas(g.arcs, rp, z, a);
    }
    forall a | a in h.arcs
      ensures FragArc(a, lp, B, z)
    {
      assert FragArc(if a.to == z then a.(to := rp) else a, lp, B, rp);
    }
    forall a
      ensures a in Outside(h, lp, B) <==> a in Outside(g, lp, B)
    {
      assert a.to == z && a.(to := rp) in g.arcs ==> FragArc(a.(to := rp), lp, B, rp);
      assert a in g.arcs ==> FragArc(a, lp, B, rp);
    }
    forall s: Subject, p: nat, q: nat
      ensures Passes(h, s, lp, B, z, p, q) <==> Passes(g, s, lp, B, rp, p, q)
    {
      MovedEndForth(g, h, s, lp, B, rp, z, p);
      MovedEndBack(g, h, s, lp, B, rp, z, p);
    }
  }

  lemma MovedEndForth(g: Net, h: Net, s: Subject, lp: nat, B: set<nat>, rp: nat, z: nat, p0: nat)
    requires Frag(g, lp, B, rp) && SameEnds(g, h) && Unused(g, z) && z != lp && z != rp && z !in B
    requires forall a :: a in h.arcs <==> (a in g.arcs && a.to != rp) || (a.to == z && a.(to := rp) in g.arcs)
    ensures forall q: nat | Passes(g, s, lp, B, rp, p0, q) :: Passes(h, s, lp, B, z, p0, q)
  {
    var gn, hn, c := FragNet(g, lp, B), FragNet(h, lp, B), Config(lp, p0);
    var f := (x: nat) => if x == rp then z else x;
    ReachedHere(hn, s, c);
    forall a: Arc, q: nat, p: nat {:trigger Fires(gn, s, a, q, p)} |
      a in gn.arcs && Reached(gn, s, c, a.from, q) && Reached(hn, s, c, f(a.from), q) && Fires(gn, s, a, q, p)
      ensures Reached(hn, s, c, f(a.to), p)
    {
      var b := if a.to == rp then a.(to := z) else a;
      assert b.(to := a.to) == a;
      ReachedStep(hn, s, c, b, q, p);
    }
    Mapped(gn, hn, s, c, c, f);
  }

  lemma MovedEndBack(g: Net, h: Net, s: Subject, lp: nat, B: set<nat>, rp: nat, z: nat, p0: nat)
    requires Frag(g, lp, B, rp) && SameEnds(g, h) && Unused(g, z) && z != lp && z != rp && z !in B
    requires forall a :: a in h.arcs <==> (a in g.arcs && a.to != rp) || (a.to == z && a.(to := rp) in g.arcs)
    ensures forall q: nat | Passes(h, s, lp, B, z, p0, q) :: Passes(g, s, lp, B, rp, p0, q)
  {
    var gn, hn, c := FragNet(g, lp, B), FragNet(h, lp, B), Config(lp, p0);
    var f := (x: nat) => if x == z then rp else x;
    ReachedHere(gn, s, c);
    forall a: Arc, q: nat, p: nat {:trigger Fires(hn, s, a, q, p)} |
      a in hn.arcs && Reached(hn, s, c, a.from, q) && Reached(gn, s, c, f(a.from), q) && Fires(hn, s, a, q, p)
      ensures Reached(gn, s, c, f(a.to), p)
    {
      ReachedStep(gn, s, c, if a.to == z then a.(to := rp) else a, q, p);
    }
    Mapped(hn, gn, s, c, c, f);
  }

  // ----- repetition

  type Relation = (nat, nat) -> bool

  /** From p to q by k times R. */
  ghost predicate Power(R: Relation, k: nat, p: nat, q: nat)
    decreases k, 0
  {
    if k == 0 then p == q
    else
      var j: nat := k - 1;
      exists r: nat :: Once(R, j, p, r, q)
  }

  ghost predicate Once(R: Relation, k: nat, p: nat, r: nat, q: nat)
    decreases k, 1
  {
    Power(R, k, p, r) && R(r, q)
  }

  /** DUPMAX + 1 stands for no upper bound. */
  const INFINITY := 256

  ghost predicate Between(m: nat, n: nat, k: nat) {
    m <= k && (n == INFINITY || k <= n)
  }

  /** From p to q by m to n times R. */
  ghost predicate Times(R: Relation, m: nat, n: nat, p: nat, q: nat) {
    exists k: nat :: Between(m, n, k) && Power(R, k, p, q)
  }

  lemma PowerNext(R: Relation, k: nat, p: nat, r: nat, q: nat)
    requires Power(R, k, p, r) && R(r, q)
    ensures Power(R, k + 1, p, q)
  {
    assert Once(R, k, p, r, q);
  }

  lemma TimesNext(R: Relation, m: nat, n: nat, p: nat, r: nat, q: nat)
    requires Times(R, m, n, p, r) && R(r, q)
    ensures Times(R, m + 1, if n == INFINITY then n else n + 1, p, q)
    ensures n == INFINITY ==> Times(R, m, n, p, q)
  {
    var k: nat :| Between(m, n, k) && Power(R, k, p, r);
    PowerNext(R, k, p, r, q);
    assert Between(m + 1, if n == INFINITY then n else n + 1, k + 1);
    assert n == INFINITY ==> Between(m, n, k + 1);
  }

  /** Positions from p to q, each in relation R to the next. */
  ghost predicate Walk(R: Relation, walk: seq<nat>, p: nat, q: nat) {
    && |walk| > 0 && walk[0] == p && walk[|walk| - 1] == q
    && forall i, j | 0 <= i < j < |walk| && j == i + 1 :: R(walk[i], walk[j])
  }

  lemma {:induction false} PowerWalk(R: Relation, k: nat, p: nat, q: nat) returns (walk: seq<nat>)
    requires Power(R, k, p, q)
    ensures Walk(R, walk, p, q) && |walk| == k + 1
    decreases k
  {
    if k == 0 {
      walk := [p];
    } else {
      var j: nat := k - 1;
      var r: nat :| Once(R, j, p, r, q);
      var front := PowerWalk(R, j, p, r);
      walk := front + [q];
    }
  }

  lemma {:induction false} WalkPower(R: Relation, walk: seq<nat>, p: nat, q: nat)
    requires Walk(R, walk, p, q)
    ensures Power(R, |walk| - 1, p, q)
    decreases |walk|
  {
    if |walk| > 1 {
      var front := walk[..|walk| - 1];
      var r := walk[|walk| - 2];
      WalkPower(R, front, p, r);
      assert R(walk[|walk| - 2], walk[|walk| - 1]);
      PowerNext(R, |walk| - 2, p, r, q);
    }
  }

  /** x{m,n} is read by one x after the other, m of them at least, and at most n unless n stands for no bound. */
  lemma TimesMeans(R: Relation, m: nat, n: nat, p: nat, q: nat)
    ensures Times(R, m, n, p, q) <==> exists walk :: Walk(R, walk, p, q) && m < |walk| && (n == 256 || |walk| <= n + 1)
  {
    if k: nat :| Between(m, n, k) && Power(R, k, p, q) {
      var walk := PowerWalk(R, k, p, q);
      assert Walk(R, walk, p, q) && m < |walk| && (n == 256 || |walk| <= n + 1);
    }
    if walk :| Walk(R, walk, p, q) && m < |walk| && (n == 256 || |walk| <= n + 1) {
      WalkPower(R, walk, p, q);
      assert Between(m, n, |walk| - 1);
    }
  }

  /** The relation a part stands for. */
  ghost function Rel(g: Net, s: Subject, lp: nat, B: set<nat>, rp: nat): Relation {
    (p: nat, q: nat) => Passes(g, s, lp, B, rp, p, q)
  }

  /** An EMPTY arc from end to end makes the part optional. */
  lemma Optional(g: Net, h: Net, lp: nat, B: set<nat>, rp: nat)
    requires Frag(g, lp, B, rp) && SameEnds(g, h) && h.arcs == g.arcs + {Arc(EMPTY, 0, lp, rp)}
    ensures Frag(h, lp, B, rp) && Outside(h, lp, B) == Outside(g, lp, B)
    ensures forall s: Subject, p: nat, q: nat :: Passes(h, s, lp, B, rp, p, q) <==> p == q || Passes(g, s, lp, B, rp, p, q)
  {
    var gn, hn := FragNet(g, lp, B), FragNet(h, lp, B);
    forall s: Subject, p: nat, q: nat
      ensures Passes(h, s, lp, B, rp, p, q) <==> p == q || Passes(g, s, lp, B, rp, p, q)
    {
      var c := Config(lp, p);
      ReachedHere(gn, s, c);
      ReachedHere(hn, s, c);
      ReachedStep(hn, s, c, Arc(EMPTY, 0, lp, rp), p, p);
      ReachedMore(gn, hn, s, c);
      var inv := (x: nat, r: nat) => Reached(gn, s, c, x, r) || (x == rp && r == p);
      forall a: Arc, u: nat, v: nat {:trigger Fires(hn, s, a, u, v)} |
        a in hn.arcs && Reached(hn, s, c, a.from, u) && inv(a.from, u) && Fires(hn, s, a, u, v)
        ensures inv(a.to, v)
      {
        if a in gn.arcs {
          ReachedStep(gn, s, c, a, u, v);
        } else {
          assert a == Arc(EMPTY, 0, lp, rp) && Reached(gn, s, c, lp, u);
          StartOnce(g, s, lp, B, rp, p, u);
        }
      }
      ReachedInduction(hn, s, c, inv);
    }
  }

  /** A part does not come back to its start. */
  lemma StartOnce(g: Net, s: Subject, lp: nat, B: set<nat>, rp: nat, p: nat, q: nat)
    requires Frag(g, lp, B, rp) && Reached(FragNet(g, lp, B), s, Config(lp, p), lp, q)
    ensures p == q
  {
    if p != q {
      var a, r := ReachedLast(FragNet(g, lp, B), s, Config(lp, p), lp, q);
    }
  }

  /** Two parts end to end. */
  lemma Composed(g: Net, lp: nat, C: set<nat>, z: nat, B: set<nat>, rp: nat)
    requires Frag(g, lp, C, z) && Frag(g, z, B, rp) && C !! B && lp !in B && lp != rp && rp !in C
    ensures Frag(g, lp, C + {z} + B, rp)
    ensures Outside(g, lp, C + {z} + B) == Outside(g, lp, C) - Inside(g, z, B)
    ensures forall s: Subject, p: nat, q: nat :: Passes(g, s, lp, C + {z} + B, rp, p, q) <==>
              exists r: nat :: Passes(g, s, lp, C, z, p, r) && Passes(g, s, z, B, rp, r, q)
  {
    forall a | a in g.arcs
      ensures FragArc(a, lp, C + {z} + B, rp)
    {
      assert FragArc(a, lp, C, z) && FragArc(a, z, B, rp);
    }
    forall s: Subject, p: nat, q: nat
      ensures Passes(g, s, lp, C + {z} + B, rp, p, q) <==>
              exists r: nat :: Passes(g, s, lp, C, z, p, r) && Passes(g, s, z, B, rp, r, q)
    {
      ComposedForth(g, s, lp, C, z, B, rp, p, q);
      if r: nat :| Passes(g, s, lp, C, z, p, r) && Passes(g, s, z, B, rp, r, q) {
        var n := FragNet(g, lp, C + {z} + B);
        ReachedMore(FragNet(g, lp, C), n, s, Config(lp, p));
        ReachedMore(FragNet(g, z, B), n, s, Config(z, r));
        ReachedOn(n, s, Config(lp, p), Config(z, r));
      }
    }
  }

  ghost predicate Midway(g: Net, s: Subject, lp: nat, C: set<nat>, z: nat, B: set<nat>, p: nat, r: nat, x: nat, q: nat) {
    Passes(g, s, lp, C, z, p, r) && Reached(FragNet(g, z, B), s, Config(z, r), x, q)
  }

  lemma MidwayStep(g: Net, s: Subject, lp: nat, C: set<nat>, z: nat, B: set<nat>, p: nat, r: nat, a: Arc, u: nat, v: nat)
    requires Midway(g, s, lp, C, z, B, p, r, a.from, u) && a in Inside(g, z, B) && Fires(g, s, a, u, v)
    ensures Midway(g, s, lp, C, z, B, p, r, a.to, v)
  {
    ReachedStep(FragNet(g, z, B), s, Config(z, r), a, u, v);
  }

  lemma ComposedForth(g: Net, s: Subject, lp: nat, C: set<nat>, z: nat, B: set<nat>, rp: nat, p: nat, q: nat)
    requires Frag(g, lp, C, z) && Frag(g, z, B, rp) && C !! B && lp !in B && lp != rp && rp !in C
    ensures Passes(g, s, lp, C + {z} + B, rp, p, q) ==> exists r: nat :: Passes(g, s, lp, C, z, p, r) && Passes(g, s, z, B, rp, r, q)
  {
    var n, c := FragNet(g, lp, C + {z} + B), Config(lp, p);
    var n1, n2 := FragNet(g, lp, C), FragNet(g, z, B);
    var inv := (x: nat, t: nat) =>
      if x == lp || x in C || x == z then Reached(n1, s, c, x, t) else exists r: nat :: Midway(g, s, lp, C, z, B, p, r, x, t);
    ReachedHere(n1, s, c);
    forall a: Arc, u: nat, v: nat {:trigger Fires(n, s, a, u, v)} |
      a in n.arcs && Reached(n, s, c, a.from, u) && inv(a.from, u) && Fires(n, s, a, u, v)
      ensures inv(a.to, v)
    {
      assert FragArc(a, lp, C, z) && FragArc(a, z, B, rp);
      if a in n1.arcs {
        ReachedStep(n1, s, c, a, u, v);
      } else {
        ReachedHere(n2, s, Config(z, u));
        assert a.from == z ==> Midway(g, s, lp, C, z, B, p, u, a.from, u);
        var r: nat :| Midway(g, s, lp, C, z, B, p, r, a.from, u);
        MidwayStep(g, s, lp, C, z, B, p, r, a, u, v);
      }
    }
    ReachedInduction(n, s, c, inv);
    if Passes(g, s, lp, C + {z} + B, rp, p, q) {
      assert inv(rp, q);
      var r: nat :| Midway(g, s, lp, C, z, B, p, r, rp, q);
      MidwayThrough(g, s, lp, C, z, B, rp, p, r, q);
    }
  }

  lemma MidwayThrough(g: Net, s: Subject, lp: nat, C: set<nat>, z: nat, B: set<nat>, rp: nat, p: nat, r: nat, q: nat)
    requires Midway(g, s, lp, C, z, B, p, r, rp, q)
    ensures Passes(g, s, lp, C, z, p, r) && Passes(g, s, z, B, rp, r, q)
  {}

  // ----- loops

  /** At x and t, after some turns to a position where the current turn began. */
  ghost predicate Turning(g: Net, s: Subject, z: nat, B: set<nat>, rp: nat, m: nat, p: nat, r: nat, x: nat, t: nat) {
    Times(Rel(g, s, z, B, rp), m, INFINITY, p, r) && Reached(FragNet(g, z, B), s, Config(z, r), x, t)
  }

  lemma TurningStep(g: Net, s: Subject, z: nat, B: set<nat>, rp: nat, m: nat, p: nat, r: nat, a: Arc, u: nat, v: nat)
    requires Turning(g, s, z, B, rp, m, p, r, a.from, u) && a in Inside(g, z, B) && Fires(g, s, a, u, v)
    ensures Turning(g, s, z, B, rp, m, p, r, a.to, v)
  {
    ReachedStep(FragNet(g, z, B), s, Config(z, r), a, u, v);
  }

  lemma TurningBegins(g: Net, s: Subject, z: nat, B: set<nat>, rp: nat, m: nat, p: nat, r: nat)
    requires Times(Rel(g, s, z, B, rp), m, INFINITY, p, r)
    ensures Turning(g, s, z, B, rp, m, p, r, z, r)
  {
    ReachedHere(FragNet(g, z, B), s, Config(z, r));
  }

  lemma TurningEnds(g: Net, s: Subject, z: nat, B: set<nat>, rp: nat, m: nat, p: nat, r: nat, t: nat)
    requires Turning(g, s, z, B, rp, m, p, r, rp, t)
    ensures Times(Rel(g, s, z, B, rp), m + 1, INFINITY, p, t) && Times(Rel(g, s, z, B, rp), m, INFINITY, p, t)
  {
    TimesNext(Rel(g, s, z, B, rp), m, INFINITY, p, r, t);
  }

  /** x{0,}: the part, from z back to z, with EMPTY arcs from lp and to rp. */
  ghost predicate IsLoop(g: Net, h: Net, lp: nat, z: nat, B: set<nat>, rp: nat) {
    && Frag(g, z, B, rp) && SameEnds(g, h) && lp !in B && lp != rp && lp != z && Inner(g, lp)
    && (forall a | a in g.arcs :: a.from != lp && a.to != z)
    && forall a :: a in h.arcs <==>
         (a in g.arcs && a.to != rp) || (a.to == z && a.(to := rp) in g.arcs) || a == Arc(EMPTY, 0, lp, z) || a == Arc(EMPTY, 0, z, rp)
  }

  lemma LoopForth(g: Net, h: Net, s: Subject, lp: nat, z: nat, B: set<nat>, rp: nat, p: nat)
    requires IsLoop(g, h, lp, z, B, rp)
    ensures forall q: nat | Passes(h, s, lp, B + {z}, rp, p, q) :: Times(Rel(g, s, z, B, rp), 0, INFINITY, p, q)
  {
    var hn, c, R := FragNet(h, lp, B + {z}), Config(lp, p), Rel(g, s, z, B, rp);
    var inv := (x: nat, t: nat) =>
      if x == lp then t == p
      else if x == z || x == rp then Times(R, 0, INFINITY, p, t)
      else exists r: nat :: Turning(g, s, z, B, rp, 0, p, r, x, t);
    assert Between(0, INFINITY, 0) && Power(R, 0, p, p);
    assert Times(R, 0, INFINITY, p, p);
    forall a: Arc, u: nat, v: nat {:trigger Fires(hn, s, a, u, v)} |
      a in hn.arcs && Reached(hn, s, c, a.from, u) && inv(a.from, u) && Fires(hn, s, a, u, v)
      ensures inv(a.to, v)
    {
      if a != Arc(EMPTY, 0, lp, z) && a != Arc(EMPTY, 0, z, rp) {
        var b := if a.to == z then a.(to := rp) else a;
        assert b in g.arcs && FragArc(b, z, B, rp);
        if a.from == z {
          TurningBegins(g, s, z, B, rp, 0, p, u);
        }
        var r: nat :| Turning(g, s, z, B, rp, 0, p, r, a.from, u);
        TurningStep(g, s, z, B, rp, 0, p, r, b, u, v);
        if a.to == z {
          TurningEnds(g, s, z, B, rp, 0, p, r, v);
        }
      }
    }
    ReachedInduction(hn, s, c, inv);
  }

  lemma {:induction false} LoopTurns(g: Net, h: Net, s: Subject, lp: nat, z: nat, B: set<nat>, rp: nat, k: nat, p: nat, q: nat)
    requires IsLoop(g, h, lp, z, B, rp) && Power(Rel(g, s, z, B, rp), k, p, q)
    ensures Reached(FragNet(h, lp, B + {z}), s, Config(lp, p), z, q)
    decreases k
  {
    var gn, hn, c := FragNet(g, z, B), FragNet(h, lp, B + {z}), Config(lp, p);
    if k == 0 {
      ReachedHere(hn, s, c);
      ReachedStep(hn, s, c, Arc(EMPTY, 0, lp, z), p, p);
    } else {
      var j: nat := k - 1;
      var r: nat :| Once(Rel(g, s, z, B, rp), j, p, r, q);
      LoopTurns(g, h, s, lp, z, B, rp, j, p, r);
      var f := (x: nat) => if x == rp then z else x;
      forall a: Arc, u: nat, v: nat {:trigger Fires(gn, s, a, u, v)} |
        a in gn.arcs && Reached(gn, s, Config(z, r), a.from, u) && Reached(hn, s, c, f(a.from), u) && Fires(gn, s, a, u, v)
        ensures Reached(hn, s, c, f(a.to), v)
      {
        var b := if a.to == rp then a.(to := z) else a;
        assert b.(to := a.to) == a && FragArc(a, z, B, rp);
        ReachedStep(hn, s, c, b, u, v);
      }
      Mapped(gn, hn, s, Config(z, r), c, f);
      assert Rel(g, s, z, B, rp)(r, q);
    }
  }

  lemma Looped(g: Net, h: Net, lp: nat, z: nat, B: set<nat>, rp: nat)
    requires IsLoop(g, h, lp, z, B, rp)
    ensures Frag(h, lp, B + {z}, rp) && Outside(h, lp, B + {z}) == Outside(g, z, B)
    ensures forall s: Subject, p: nat, q: nat ::
      Passes(h, s, lp, B + {z}, rp, p, q) <==> Times(Rel(g, s, z, B, rp), 0, INFINITY, p, q)
  {
    forall a | a in h.arcs
      ensures FragArc(a, lp, B + {z}, rp)
    {
      assert a in g.arcs ==> FragArc(a, z, B, rp);
      assert a.(to := rp) in g.arcs ==> FragArc(a.(to := rp), z, B, rp);
    }
    forall a
      ensures a in Outside(h, lp, B + {z}) <==> a in Outside(g, z, B)
    {
      assert a in g.arcs ==> FragArc(a, z, B, rp);
      assert a.(to := rp) in g.arcs ==> FragArc(a.(to := rp), z, B, rp);
    }
    forall s: Subject, p: nat, q: nat
      ensures Passes(h, s, lp, B + {z}, rp, p, q) <==> Times(Rel(g, s, z, B, rp), 0, INFINITY, p, q)
    {
      LoopForth(g, h, s, lp, z, B, rp, p);
      if Times(Rel(g, s, z, B, rp), 0, INFINITY, p, q) {
        var k: nat :| Between(0, INFINITY, k) && Power(Rel(g, s, z, B, rp), k, p, q);
        LoopTurns(g, h, s, lp, z, B, rp, k, p, q);
        ReachedStep(FragNet(h, lp, B + {z}), s, Config(lp, p), Arc(EMPTY, 0, z, rp), q, q);
      }
    }
  }

  /** x{1,}: the part from z to y, with EMPTY arcs from lp, to rp and back. */
  ghost predicate IsLoopback(g: Net, h: Net, lp: nat, z: nat, B: set<nat>, y: nat, rp: nat) {
    && Frag(g, z, B, y) && SameEnds(g, h) && Inner(g, lp) && Inner(g, rp)
    && lp !in B && rp !in B && lp != rp && lp != z && lp != y && rp != z && rp != y
    && (forall a | a in g.arcs :: a.from != lp && a.from != y && a.to != z && a.to != rp)
    && h.arcs == g.arcs + {Arc(EMPTY, 0, lp, z), Arc(EMPTY, 0, y, rp), Arc(EMPTY, 0, y, z)}
  }

  lemma LoopbackForth(g: Net, h: Net, s: Subject, lp: nat, z: nat, B: set<nat>, y: nat, rp: nat, p: nat)
    requires IsLoopback(g, h, lp, z, B, y, rp)
    ensures forall q: nat | Passes(h, s, lp, B + {z, y}, rp, p, q) :: Times(Rel(g, s, z, B, y), 1, INFINITY, p, q)
  {
    var hn, c, R := FragNet(h, lp, B + {z, y}), Config(lp, p), Rel(g, s, z, B, y);
    var inv := (x: nat, t: nat) =>
      if x == lp then t == p
      else if x == rp || x == y then Times(R, 1, INFINITY, p, t)
      else exists r: nat :: Turning(g, s, z, B, y, 0, p, r, x, t);
    assert Between(0, INFINITY, 0) && Power(R, 0, p, p);
    forall a: Arc, u: nat, v: nat {:trigger Fires(hn, s, a, u, v)} |
      a in hn.arcs && Reached(hn, s, c, a.from, u) && inv(a.from, u) && Fires(hn, s, a, u, v)
      ensures inv(a.to, v)
    {
      if a == Arc(EMPTY, 0, lp, z) || a == Arc(EMPTY, 0, y, z) {
        if a.from == y {
          assert Times(R, 1, INFINITY, p, u);
          var k: nat :| Between(1, INFINITY, k) && Power(R, k, p, u);
          assert Between(0, INFINITY, k);
        }
        assert Times(R, 0, INFINITY, p, u);
        TurningBegins(g, s, z, B, y, 0, p, u);
      } else if a != Arc(EMPTY, 0, y, rp) {
        assert a in g.arcs && FragArc(a, z, B, y);
        var r: nat :| Turning(g, s, z, B, y, 0, p, r, a.from, u);
        TurningStep(g, s, z, B, y, 0, p, r, a, u, v);
        if a.to == y {
          TurningEnds(g, s, z, B, y, 0, p, r, v);
        }
      }
    }
    ReachedInduction(hn, s, c, inv);
  }

  lemma {:induction false} LoopbackTurns(g: Net, h: Net, s: Subject, lp: nat, z: nat, B: set<nat>, y: nat, rp: nat, k: nat, p: nat, q: nat)
    requires IsLoopback(g, h, lp, z, B, y, rp) && Power(Rel(g, s, z, B, y), k, p, q)
    ensures Reached(FragNet(h, lp, B + {z, y}), s, Config(lp, p), z, q)
    ensures k > 0 ==> Reached(FragNet(h, lp, B + {z, y}), s, Config(lp, p), y, q)
    decreases k
  {
    var gn, hn, c := FragNet(g, z, B), FragNet(h, lp, B + {z, y}), Config(lp, p);
    if k == 0 {
      ReachedHere(hn, s, c);
      ReachedStep(hn, s, c, Arc(EMPTY, 0, lp, z), p, p);
    } else {
      var j: nat := k - 1;
      var r: nat :| Once(Rel(g, s, z, B, y), j, p, r, q);
      LoopbackTurns(g, h, s, lp, z, B, y, rp, j, p, r);
      ReachedMore(gn, hn, s, Config(z, r));
      ReachedOn(hn, s, c, Config(z, r));
      assert Rel(g, s, z, B, y)(r, q);
      ReachedStep(hn, s, c, Arc(EMPTY, 0, y, z), q, q);
    }
  }

  lemma LoopedBack(g: Net, h: Net, lp: nat, z: nat, B: set<nat>, y: nat, rp: nat)
    requires IsLoopback(g, h, lp, z, B, y, rp)
    ensures Frag(h, lp, B + {z, y}, rp) && Outside(h, lp, B + {z, y}) == Outside(g, z, B)
    ensures forall s: Subject, p: nat, q: nat ::
      Passes(h, s, lp, B + {z, y}, rp, p, q) <==> Times(Rel(g, s, z, B, y), 1, INFINITY, p, q)
  {
    forall a | a in h.arcs
      ensures FragArc(a, lp, B + {z, y}, rp)
    {
      assert a in g.arcs ==> FragArc(a, z, B, y);
    }
    forall s: Subject, p: nat, q: nat
      ensures Passes(h, s, lp, B + {z, y}, rp, p, q) <==> Times(Rel(g, s, z, B, y), 1, INFINITY, p, q)
    {
      LoopbackForth(g, h, s, lp, z, B, y, rp, p);
      if Times(Rel(g, s, z, B, y), 1, INFINITY, p, q) {
        var k: nat :| Between(1, INFINITY, k) && Power(Rel(g, s, z, B, y), k, p, q);
        LoopbackTurns(g, h, s, lp, z, B, y, rp, k, p, q);
        ReachedStep(FragNet(h, lp, B + {z, y}), s, Config(lp, p), Arc(EMPTY, 0, y, rp), q, q);
      }
    }
  }
}
