/** Why the rewrites of regc_nfa.c keep the language: each is a small change of the set of arcs, justified one arc at
    a time. */
module NetRewrites {
  import opened Nets

  // ----- comparing two graphs

  ghost predicate SameEnds(g: Net, h: Net) {
    h == g.(arcs := h.arcs)
  }

  /** Whatever g reaches satisfies inv, which for the end means that h reaches it too. */
  lemma Carry(g: Net, h: Net, s: Subject, inv: (nat, nat) -> bool)
    requires SameEnds(g, h) && Inductive(g, s, Start(g), inv)
    requires forall p: nat | inv(g.post, p) :: Reached(h, s, Start(h), g.post, p)
    ensures Accepts(g, s) ==> Accepts(h, s)
  {
    ReachedInduction(g, s, Start(g), inv);
  }

  /** Every arc of h that can be taken leads where g gets anyway. */
  ghost predicate Simulated(g: Net, h: Net, s: Subject) {
    forall a: Arc, q: nat, p: nat {:trigger Fires(g, s, a, q, p)} |
      a in g.arcs && Reached(g, s, Start(g), a.from, q) && Reached(h, s, Start(h), a.from, q) && Fires(g, s, a, q, p) ::
      Reached(h, s, Start(h), a.to, p)
  }

  lemma Simulation(g: Net, h: Net, s: Subject)
    requires SameEnds(g, h) && Simulated(g, h, s)
    ensures forall x: nat, p: nat | Reached(g, s, Start(g), x, p) :: Reached(h, s, Start(h), x, p)
  {
    ReachedHere(h, s, Start(h));
    ReachedInduction(g, s, Start(g), (x: nat, p: nat) => Reached(h, s, Start(h), x, p));
  }

  lemma Grow(g: Net, h: Net, s: Subject)
    requires SameEnds(g, h) && g.arcs <= h.arcs
    ensures forall x: nat, p: nat | Reached(g, s, Start(g), x, p) :: Reached(h, s, Start(h), x, p)
  {
    forall a: Arc, q: nat, p: nat {:trigger Fires(g, s, a, q, p)} |
      a in g.arcs && Reached(g, s, Start(g), a.from, q) && Reached(h, s, Start(h), a.from, q) && Fires(g, s, a, q, p)
      ensures Reached(h, s, Start(h), a.to, p)
    {
      ReachedStep(h, s, Start(h), a, q, p);
    }
    Simulation(g, h, s);
  }

  // ----- arcs that make no difference

  /** A constraint that leads back to its own state is pointless. */
  lemma DropLoop(g: Net, h: Net, con: Arc)
    requires SameEnds(g, h) && h.arcs == g.arcs - {con} && con.from == con.to && !Reads(g, con)
    ensures SameLanguage(g, h)
  {
    forall s: Subject
      ensures Accepts(g, s) <==> Accepts(h, s)
    {
      forall a: Arc, q: nat, p: nat {:trigger Fires(g, s, a, q, p)} |
        a in g.arcs && Reached(g, s, Start(g), a.from, q) && Reached(h, s, Start(h), a.from, q) && Fires(g, s, a, q, p)
        ensures Reached(h, s, Start(h), a.to, p)
      {
        if a != con {
          ReachedStep(h, s, Start(h), a, q, p);
        }
      }
      Simulation(g, h, s);
      Grow(h, g, s);
    }
  }

  /** A state that nothing enters is not reached. */
  lemma Unreached(g: Net, s: Subject, x: nat, p: nat)
    requires x != g.pre && forall a | a in g.arcs :: a.to != x
    ensures !Reached(g, s, Start(g), x, p)
  {
    if Reached(g, s, Start(g), x, p) {
      var a, q := ReachedLast(g, s, Start(g), x, p);
    }
  }

  /** The arcs in R are out of use: their source is entered by nothing. */
  lemma DropUnreached(g: Net, h: Net, x: nat)
    requires SameEnds(g, h) && h.arcs <= g.arcs && x != g.pre
    requires forall a | a in g.arcs :: a.to != x && (a in h.arcs || a.from == x)
    ensures SameLanguage(g, h)
  {
    forall s: Subject
      ensures Accepts(g, s) <==> Accepts(h, s)
    {
      forall a: Arc, q: nat, p: nat {:trigger Fires(g, s, a, q, p)} |
        a in g.arcs && Reached(g, s, Start(g), a.from, q) && Reached(h, s, Start(h), a.from, q) && Fires(g, s, a, q, p)
        ensures Reached(h, s, Start(h), a.to, p)
      {
        Unreached(g, s, x, q);
        ReachedStep(h, s, Start(h), a, q, p);
      }
      Simulation(g, h, s);
      Grow(h, g, s);
    }
  }

  /** Arcs into a state that nothing leaves, other than the end, lead nowhere. */
  lemma DropDeadEnd(g: Net, h: Net, x: nat)
    requires SameEnds(g, h) && h.arcs <= g.arcs && x != g.post
    requires forall a | a in g.arcs :: a.from != x && (a in h.arcs || a.to == x)
    ensures SameLanguage(g, h)
  {
    forall s: Subject
      ensures Accepts(g, s) <==> Accepts(h, s)
    {
      var inv := (y: nat, p: nat) => y == x || Reached(h, s, Start(h), y, p);
      ReachedHere(h, s, Start(h));
      forall a: Arc, q: nat, p: nat {:trigger Fires(g, s, a, q, p)} |
        a in g.arcs && Reached(g, s, Start(g), a.from, q) && inv(a.from, q) && Fires(g, s, a, q, p)
        ensures inv(a.to, p)
      {
        if a.to != x {
          ReachedStep(h, s, Start(h), a, q, p);
        }
      }
      Carry(g, h, s, inv);
      Grow(h, g, s);
    }
  }

  // ----- constraint meets arc

  datatype Outcome = INCOMPATIBLE | SATISFIED | COMPATIBLE

  predicate Backward(k: Kind) {
    k == CARET || k == BEHIND
  }

  predicate Forward(k: Kind) {
    k == DOLLAR || k == AHEAD
  }

  /** `combine`: what becomes of an arc a constraint is moved past. */
  function Combine(con: Arc, a: Arc): Outcome
    requires Backward(con.kind) || Forward(con.kind)
    requires a.kind != EMPTY
  {
    match (con.kind, a.kind)
    case (CARET, PLAIN) => INCOMPATIBLE
    case (DOLLAR, PLAIN) => INCOMPATIBLE
    case (AHEAD, PLAIN) => if con.co == a.co then SATISFIED else INCOMPATIBLE
    case (BEHIND, PLAIN) => if con.co == a.co then SATISFIED else INCOMPATIBLE
    case (CARET, CARET) => if con.co == a.co then SATISFIED else INCOMPATIBLE
    case (DOLLAR, DOLLAR) => if con.co == a.co then SATISFIED else INCOMPATIBLE
    case (AHEAD, AHEAD) => if con.co == a.co then SATISFIED else INCOMPATIBLE
    case (BEHIND, BEHIND) => if con.co == a.co then SATISFIED else INCOMPATIBLE
    case (CARET, BEHIND) => INCOMPATIBLE
    case (BEHIND, CARET) => INCOMPATIBLE
    case (DOLLAR, AHEAD) => INCOMPATIBLE
    case (AHEAD, DOLLAR) => INCOMPATIBLE
    case _ => COMPATIBLE
  }

  /** The false colors of the beginning do not appear on PLAIN arcs yet. */
  ghost predicate CaretsKept(g: Net) {
    forall a | a in g.arcs && a.kind == PLAIN :: a.co !in g.bos
  }

  ghost predicate DollarsKept(g: Net) {
    forall a | a in g.arcs && a.kind == PLAIN :: a.co !in g.eos
  }

  /** What `combine` says is true of a backward constraint that follows the arc. */
  lemma CombineBehind(g: Net, s: Subject, con: Arc, a: Arc, q: nat, p: nat)
    requires Shaped(g) && CaretsKept(g) && con in g.arcs && a in g.arcs && a.to == con.from
    requires Backward(con.kind) && a.kind != EMPTY && Fires(g, s, a, q, p)
    ensures Combine(con, a) == INCOMPATIBLE ==> !Holds(g, s, con, p)
    ensures Combine(con, a) == SATISFIED ==> Holds(g, s, con, p)
    ensures Combine(con, a) == COMPATIBLE ==> !Reads(g, a) && a.from != g.pre
  {
    assert ArcShaped(g, con) && ArcShaped(g, a);
  }

  /** And of a forward constraint that precedes it. */
  lemma CombineAhead(g: Net, s: Subject, con: Arc, a: Arc, q: nat, p: nat)
    requires Shaped(g) && DollarsKept(g) && con in g.arcs && a in g.arcs && con.to == a.from
    requires Forward(con.kind) && a.kind != EMPTY && Fires(g, s, a, q, p)
    ensures Combine(con, a) == INCOMPATIBLE ==> !Holds(g, s, con, q)
    ensures Combine(con, a) == SATISFIED ==> Holds(g, s, con, q)
    ensures Combine(con, a) == COMPATIBLE ==> !Reads(g, a) && a.to != g.post
  {
    assert ArcShaped(g, con) && ArcShaped(g, a);
  }

  // ----- moving and copying arcs

  ghost function Into(A: set<Arc>, x: nat): set<Arc> {
    set a | a in A && a.to == x
  }

  ghost function OutOf(A: set<Arc>, x: nat): set<Arc> {
    set a | a in A && a.from == x
  }

  /** The arcs into x, led to y instead. */
  ghost function Redirected(A: set<Arc>, x: nat, y: nat): set<Arc> {
    set a | a in A && a.to == x :: a.(to := y)
  }

  /** The arcs out of x, started at y instead. */
  ghost function Resourced(A: set<Arc>, x: nat, y: nat): set<Arc> {
    set a | a in A && a.from == x :: a.(from := y)
  }

  lemma RedirectedHas(A: set<Arc>, x: nat, y: nat, a: Arc)
    ensures a in Redirected(A, x, y) <==> a.to == y && a.(to := x) in A
  {
    if a.to == y && a.(to := x) in A {
      assert a == a.(to := x).(to := y);
    }
  }

  lemma ResourcedHas(A: set<Arc>, x: nat, y: nat, a: Arc)
    ensures a in Resourced(A, x, y) <==> a.from == y && a.(from := x) in A
  {
    if a.from == y && a.(from := x) in A {
      assert a == a.(from := x).(from := y);
    }
  }

  /** Nothing touches z. */
  ghost predicate Unused(g: Net, z: nat) {
    z != g.pre && z != g.post && forall a | a in g.arcs :: a.from != z && a.to != z
  }

  /** Neither the start nor the end. */
  ghost predicate Inner(g: Net, x: nat) {
    x != g.pre && x != g.post
  }

  lemma MovedFires(g: Net, s: Subject, a: Arc, x: nat, y: nat, q: nat, p: nat)
    ensures Inner(g, a.from) && Inner(g, x) ==> (Fires(g, s, a.(from := x), q, p) <==> Fires(g, s, a, q, p))
    ensures Inner(g, a.to) && Inner(g, y) ==> (Fires(g, s, a.(to := y), q, p) <==> Fires(g, s, a, q, p))
  {}

  // ----- pulling a backward constraint past its source state

  /** A copy of the source of con takes over con, so that it is the copy's only outarc. */
  lemma CloneSource(g: Net, h: Net, con: Arc, z: nat)
    requires Shaped(g) && SameEnds(g, h) && con in g.arcs && Unused(g, z)
    requires Backward(con.kind) && con.from != con.to && con.from != g.pre
    requires h.arcs == g.arcs - {con} + Redirected(g.arcs, con.from, z) + {con.(from := z)}
    ensures SameLanguage(g, h)
  {
    assert ArcShaped(g, con);
    forall s: Subject
      ensures Accepts(g, s) <==> Accepts(h, s)
    {
      CloneSourceForth(g, h, s, con, z);
      CloneSourceBack(g, h, s, con, z);
    }
  }

  lemma CloneSourceForth(g: Net, h: Net, s: Subject, con: Arc, z: nat)
    requires Shaped(g) && SameEnds(g, h) && con in g.arcs && Unused(g, z)
    requires Backward(con.kind) && con.from != con.to && con.from != g.pre && ArcShaped(g, con)
    requires h.arcs == g.arcs - {con} + Redirected(g.arcs, con.from, z) + {con.(from := z)}
    ensures Accepts(g, s) ==> Accepts(h, s)
  {
    forall a: Arc, q: nat, p: nat {:trigger Fires(g, s, a, q, p)} |
      a in g.arcs && Reached(g, s, Start(g), a.from, q) && Reached(h, s, Start(h), a.from, q) && Fires(g, s, a, q, p)
      ensures Reached(h, s, Start(h), a.to, p)
    {
      if a != con {
        ReachedStep(h, s, Start(h), a, q, p);
      } else {
        var b, r := ReachedLast(g, s, Start(g), con.from, q);
        var c, t := ReachedLast(h, s, Start(h), con.from, q);
        RedirectedHas(g.arcs, con.from, z, c);
        RedirectedHas(g.arcs, con.from, z, c.(to := z));
        MovedFires(g, s, c, c.from, z, t, q);
        ReachedStep(h, s, Start(h), c.(to := z), t, q);
        ReachedStep(h, s, Start(h), con.(from := z), q, q);
      }
    }
    Simulation(g, h, s);
  }

  lemma CloneSourceBack(g: Net, h: Net, s: Subject, con: Arc, z: nat)
    requires Shaped(g) && SameEnds(g, h) && con in g.arcs && Unused(g, z)
    requires Backward(con.kind) && con.from != con.to && con.from != g.pre && ArcShaped(g, con)
    requires h.arcs == g.arcs - {con} + Redirected(g.arcs, con.from, z) + {con.(from := z)}
    ensures Accepts(h, s) ==> Accepts(g, s)
  {
    var inv := (x: nat, p: nat) => Reached(g, s, Start(g), if x == z then con.from else x, p);
    ReachedHere(g, s, Start(g));
    forall a: Arc, q: nat, p: nat {:trigger Fires(h, s, a, q, p)} |
      a in h.arcs && Reached(h, s, Start(h), a.from, q) && inv(a.from, q) && Fires(h, s, a, q, p)
      ensures inv(a.to, p)
    {
      if a.from == z {
        RedirectedHas(g.arcs, con.from, z, a);
        assert a == con.(from := z);
        ReachedStep(g, s, Start(g), con, q, p);
      } else if a.to == z {
        RedirectedHas(g.arcs, con.from, z, a);
        MovedFires(g, s, a, a.from, con.from, q, p);
        ReachedStep(g, s, Start(g), a.(to := con.from), q, p);
      } else {
        RedirectedHas(g.arcs, con.from, z, a);
        ReachedStep(g, s, Start(g), a, q, p);
      }
    }
    Carry(h, g, s, inv);
  }

  /** con is the only way on from its source. */
  ghost predicate OnlyOut(g: Net, con: Arc) {
    con in g.arcs && con.from != con.to && con.from != g.pre && forall a | a in g.arcs && a.from == con.from :: a == con
  }

  /** An arc that contradicts the constraint it leads to is of no use. */
  lemma PullIncompatible(g: Net, h: Net, con: Arc, b: Arc)
    requires Shaped(g) && CaretsKept(g) && SameEnds(g, h) && OnlyOut(g, con) && Backward(con.kind)
    requires b in g.arcs && b.to == con.from && b.kind != EMPTY && Combine(con, b) == INCOMPATIBLE
    requires h.arcs == g.arcs - {b}
    ensures SameLanguage(g, h)
  {
    assert ArcShaped(g, con);
    forall s: Subject
      ensures Accepts(g, s) <==> Accepts(h, s)
    {
      var inv := (x: nat, p: nat) => (x == con.from && !Holds(g, s, con, p)) || Reached(h, s, Start(h), x, p);
      ReachedHere(h, s, Start(h));
      forall a: Arc, q: nat, p: nat {:trigger Fires(g, s, a, q, p)} |
        a in g.arcs && Reached(g, s, Start(g), a.from, q) && inv(a.from, q) && Fires(g, s, a, q, p)
        ensures inv(a.to, p)
      {
        if a == b {
          CombineBehind(g, s, con, b, q, p);
        } else {
          ReachedStep(h, s, Start(h), a, q, p);
        }
      }
      Carry(g, h, s, inv);
      Grow(h, g, s);
    }
  }

  /** A constraint and a compatible arc that leads to it change places. */
  lemma PullCompatible(g: Net, h: Net, con: Arc, b: Arc, z: nat)
    requires Shaped(g) && SameEnds(g, h) && OnlyOut(g, con) && Backward(con.kind) && Unused(g, z)
    requires b in g.arcs && b.to == con.from && b.kind != EMPTY && Combine(con, b) == COMPATIBLE
    requires h.arcs == g.arcs - {b} + {b.(from := z, to := con.to), con.(from := b.from, to := z)}
    ensures SameLanguage(g, h)
  {
    forall s: Subject
      ensures Accepts(g, s) <==> Accepts(h, s)
    {
      PullCompatibleForth(g, h, s, con, b, z);
      PullCompatibleBack(g, h, s, con, b, z);
    }
  }

  lemma PullCompatibleForth(g: Net, h: Net, s: Subject, con: Arc, b: Arc, z: nat)
    requires Shaped(g) && SameEnds(g, h) && OnlyOut(g, con) && Backward(con.kind) && Unused(g, z)
    requires b in g.arcs && b.to == con.from && b.kind != EMPTY && Combine(con, b) == COMPATIBLE
    requires h.arcs == g.arcs - {b} + {b.(from := z, to := con.to), con.(from := b.from, to := z)}
    ensures Accepts(g, s) ==> Accepts(h, s)
  {
    assert ArcShaped(g, con) && ArcShaped(g, b) && b != con;
    var inv := (x: nat, p: nat) =>
      Reached(h, s, Start(h), x, p) || (x == con.from && (Holds(g, s, con, p) ==> Reached(h, s, Start(h), con.to, p)));
    ReachedHere(h, s, Start(h));
    forall a: Arc, q: nat, p: nat {:trigger Fires(g, s, a, q, p)} |
      a in g.arcs && Reached(g, s, Start(g), a.from, q) && inv(a.from, q) && Fires(g, s, a, q, p)
      ensures inv(a.to, p)
    {
      if a == b {
        if Holds(g, s, con, p) {
          ReachedStep(h, s, Start(h), con.(from := b.from, to := z), q, p);
          ReachedStep(h, s, Start(h), b.(from := z, to := con.to), q, p);
        }
      } else if Reached(h, s, Start(h), a.from, q) {
        ReachedStep(h, s, Start(h), a, q, p);
      }
    }
    Carry(g, h, s, inv);
  }

  lemma PullCompatibleBack(g: Net, h: Net, s: Subject, con: Arc, b: Arc, z: nat)
    requires Shaped(g) && SameEnds(g, h) && OnlyOut(g, con) && Backward(con.kind) && Unused(g, z)
    requires b in g.arcs && b.to == con.from && b.kind != EMPTY && Combine(con, b) == COMPATIBLE
    requires h.arcs == g.arcs - {b} + {b.(from := z, to := con.to), con.(from := b.from, to := z)}
    ensures Accepts(h, s) ==> Accepts(g, s)
  {
    assert ArcShaped(g, con) && ArcShaped(g, b) && b != con;
    var inv := (x: nat, p: nat) =>
      if x == z then Reached(g, s, Start(g), b.from, p) && Holds(g, s, con, p) else Reached(g, s, Start(g), x, p);
    ReachedHere(g, s, Start(g));
    forall a: Arc, q: nat, p: nat {:trigger Fires(h, s, a, q, p)} |
      a in h.arcs && Reached(h, s, Start(h), a.from, q) && inv(a.from, q) && Fires(h, s, a, q, p)
      ensures inv(a.to, p)
    {
      if a.from == z {
        assert a == b.(from := z, to := con.to) && !Reads(h, a) && p == q;
        ReachedStep(g, s, Start(g), b, q, q);
        ReachedStep(g, s, Start(g), con, q, q);
        assert inv(a.to, p);
      } else if a.to == z {
        assert a == con.(from := b.from, to := z) && !Reads(h, a);
        assert p == q && Holds(g, s, con, p);
        assert Reached(g, s, Start(g), b.from, p);
        assert inv(a.to, p);
      } else {
        ReachedStep(g, s, Start(g), a, q, p);
        assert inv(a.to, p);
      }
    }
    Carry(h, g, s, inv);
  }

  /** Arcs that satisfy the constraint incorporate it. */
  lemma PullSatisfied(g: Net, h: Net, con: Arc)
    requires Shaped(g) && CaretsKept(g) && SameEnds(g, h) && OnlyOut(g, con) && Backward(con.kind)
    requires forall b | b in g.arcs && b.to == con.from :: b.kind != EMPTY && Combine(con, b) == SATISFIED
    requires h.arcs == g.arcs - {con} - Into(g.arcs, con.from) + Redirected(g.arcs, con.from, con.to)
    ensures SameLanguage(g, h)
  {
    assert ArcShaped(g, con);
    forall s: Subject
      ensures Accepts(g, s) <==> Accepts(h, s)
    {
      PullSatisfiedForth(g, h, s, con);
      PullSatisfiedBack(g, h, s, con);
    }
  }

  lemma PullSatisfiedForth(g: Net, h: Net, s: Subject, con: Arc)
    requires SameEnds(g, h) && OnlyOut(g, con) && ArcShaped(g, con) && Backward(con.kind)
    requires h.arcs == g.arcs - {con} - Into(g.arcs, con.from) + Redirected(g.arcs, con.from, con.to)
    ensures Accepts(g, s) ==> Accepts(h, s)
  {
    var inv := (x: nat, p: nat) => Reached(h, s, Start(h), if x == con.from then con.to else x, p);
    ReachedHere(h, s, Start(h));
    forall a: Arc, q: nat, p: nat {:trigger Fires(g, s, a, q, p)} |
      a in g.arcs && Reached(g, s, Start(g), a.from, q) && inv(a.from, q) && Fires(g, s, a, q, p)
      ensures inv(a.to, p)
    {
      if a.to == con.from {
        RedirectedHas(g.arcs, con.from, con.to, a.(to := con.to));
        MovedFires(g, s, a, a.from, con.to, q, p);
        ReachedStep(h, s, Start(h), a.(to := con.to), q, p);
      } else if a != con {
        ReachedStep(h, s, Start(h), a, q, p);
      }
    }
    Carry(g, h, s, inv);
  }

  lemma PullSatisfiedBack(g: Net, h: Net, s: Subject, con: Arc)
    requires Shaped(g) && CaretsKept(g) && SameEnds(g, h) && OnlyOut(g, con) && ArcShaped(g, con) && Backward(con.kind)
    requires forall b | b in g.arcs && b.to == con.from :: b.kind != EMPTY && Combine(con, b) == SATISFIED
    requires h.arcs == g.arcs - {con} - Into(g.arcs, con.from) + Redirected(g.arcs, con.from, con.to)
    ensures Accepts(h, s) ==> Accepts(g, s)
  {
    forall a: Arc, q: nat, p: nat {:trigger Fires(h, s, a, q, p)} |
      a in h.arcs && Reached(h, s, Start(h), a.from, q) && Reached(g, s, Start(g), a.from, q) && Fires(h, s, a, q, p)
      ensures Reached(g, s, Start(g), a.to, p)
    {
      if a in g.arcs {
        ReachedStep(g, s, Start(g), a, q, p);
      } else {
        var b := a.(to := con.from);
        RedirectedHas(g.arcs, con.from, con.to, a);
        MovedFires(g, s, a, a.from, con.from, q, p);
        CombineBehind(g, s, con, b, q, p);
        ReachedStep(g, s, Start(g), b, q, p);
        ReachedStep(g, s, Start(g), con, p, p);
      }
    }
    Simulation(h, g, s);
  }

  // ----- pushing a forward constraint past its destination state

  /** A copy of the destination of con is entered by con alone. */
  lemma CloneTarget(g: Net, h: Net, con: Arc, z: nat)
    requires Shaped(g) && SameEnds(g, h) && con in g.arcs && Unused(g, z)
    requires Forward(con.kind) && con.from != con.to && con.to != g.post
    requires h.arcs == g.arcs - {con} + Resourced(g.arcs, con.to, z) + {con.(to := z)}
    ensures SameLanguage(g, h)
  {
    assert ArcShaped(g, con);
    forall s: Subject
      ensures Accepts(g, s) <==> Accepts(h, s)
    {
      CloneTargetForth(g, h, s, con, z);
      CloneTargetBack(g, h, s, con, z);
    }
  }

  lemma CloneTargetForth(g: Net, h: Net, s: Subject, con: Arc, z: nat)
    requires SameEnds(g, h) && con in g.arcs && Unused(g, z)
    requires Forward(con.kind) && con.from != con.to && con.to != g.post && ArcShaped(g, con)
    requires h.arcs == g.arcs - {con} + Resourced(g.arcs, con.to, z) + {con.(to := z)}
    ensures Accepts(g, s) ==> Accepts(h, s)
  {
    var inv := (x: nat, p: nat) => Reached(h, s, Start(h), x, p) || (x == con.to && Reached(h, s, Start(h), z, p));
    ReachedHere(h, s, Start(h));
    forall a: Arc, q: nat, p: nat {:trigger Fires(g, s, a, q, p)} |
      a in g.arcs && Reached(g, s, Start(g), a.from, q) && inv(a.from, q) && Fires(g, s, a, q, p)
      ensures inv(a.to, p)
    {
      if a == con {
        ReachedStep(h, s, Start(h), con.(to := z), q, p);
      } else if Reached(h, s, Start(h), a.from, q) {
        ReachedStep(h, s, Start(h), a, q, p);
      } else {
        ResourcedHas(g.arcs, con.to, z, a.(from := z));
        ReachedStep(h, s, Start(h), a.(from := z), q, p);
      }
    }
    Carry(g, h, s, inv);
  }

  lemma CloneTargetBack(g: Net, h: Net, s: Subject, con: Arc, z: nat)
    requires SameEnds(g, h) && con in g.arcs && Unused(g, z)
    requires Forward(con.kind) && con.from != con.to && con.to != g.post && ArcShaped(g, con)
    requires h.arcs == g.arcs - {con} + Resourced(g.arcs, con.to, z) + {con.(to := z)}
    ensures Accepts(h, s) ==> Accepts(g, s)
  {
    var inv := (x: nat, p: nat) => Reached(g, s, Start(g), if x == z then con.to else x, p);
    ReachedHere(g, s, Start(g));
    forall a: Arc, q: nat, p: nat {:trigger Fires(h, s, a, q, p)} |
      a in h.arcs && Reached(h, s, Start(h), a.from, q) && inv(a.from, q) && Fires(h, s, a, q, p)
      ensures inv(a.to, p)
    {
      ResourcedHas(g.arcs, con.to, z, a);
      if a.from == z {
        MovedFires(g, s, a, con.to, a.to, q, p);
        ReachedStep(g, s, Start(g), a.(from := con.to), q, p);
      } else if a.to == z {
        assert a == con.(to := z);
        ReachedStep(g, s, Start(g), con, q, p);
      } else {
        ReachedStep(g, s, Start(g), a, q, p);
      }
    }
    Carry(h, g, s, inv);
  }

  /** con is the only way to its destination. */
  ghost predicate OnlyIn(g: Net, con: Arc) {
    con in g.arcs && con.from != con.to && con.to != g.post && forall a | a in g.arcs && a.to == con.to :: a == con
  }

  /** At the destination of its only inarc the constraint holds. */
  lemma AtTarget(g: Net, s: Subject, con: Arc, p: nat)
    requires Shaped(g) && OnlyIn(g, con) && Forward(con.kind) && Reached(g, s, Start(g), con.to, p)
    ensures Reached(g, s, Start(g), con.from, p) && Holds(g, s, con, p)
  {
    assert ArcShaped(g, con);
    var a, q := ReachedLast(g, s, Start(g), con.to, p);
  }

  lemma PushIncompatible(g: Net, h: Net, con: Arc, b: Arc)
    requires Shaped(g) && DollarsKept(g) && SameEnds(g, h) && OnlyIn(g, con) && Forward(con.kind)
    requires b in g.arcs && b.from == con.to && b.kind != EMPTY && Combine(con, b) == INCOMPATIBLE
    requires h.arcs == g.arcs - {b}
    ensures SameLanguage(g, h)
  {
    forall s: Subject
      ensures Accepts(g, s) <==> Accepts(h, s)
    {
      forall a: Arc, q: nat, p: nat {:trigger Fires(g, s, a, q, p)} |
        a in g.arcs && Reached(g, s, Start(g), a.from, q) && Reached(h, s, Start(h), a.from, q) && Fires(g, s, a, q, p)
        ensures Reached(h, s, Start(h), a.to, p)
      {
        if a == b {
          AtTarget(g, s, con, q);
          CombineAhead(g, s, con, b, q, p);
        } else {
          ReachedStep(h, s, Start(h), a, q, p);
        }
      }
      Simulation(g, h, s);
      Grow(h, g, s);
    }
  }

  /** A constraint and a compatible arc that follows it change places. */
  lemma PushCompatible(g: Net, h: Net, con: Arc, b: Arc, z: nat)
    requires Shaped(g) && SameEnds(g, h) && OnlyIn(g, con) && Forward(con.kind) && Unused(g, z)
    requires b in g.arcs && b.from == con.to && b.kind != EMPTY && Combine(con, b) == COMPATIBLE
    requires h.arcs == g.arcs - {b} + {con.(from := z, to := b.to), b.(from := con.from, to := z)}
    ensures SameLanguage(g, h)
  {
    forall s: Subject
      ensures Accepts(g, s) <==> Accepts(h, s)
    {
      PushCompatibleForth(g, h, s, con, b, z);
      PushCompatibleBack(g, h, s, con, b, z);
    }
  }

  lemma PushCompatibleForth(g: Net, h: Net, s: Subject, con: Arc, b: Arc, z: nat)
    requires Shaped(g) && SameEnds(g, h) && OnlyIn(g, con) && Forward(con.kind) && Unused(g, z)
    requires b in g.arcs && b.from == con.to && b.kind != EMPTY && Combine(con, b) == COMPATIBLE
    requires h.arcs == g.arcs - {b} + {con.(from := z, to := b.to), b.(from := con.from, to := z)}
    ensures Accepts(g, s) ==> Accepts(h, s)
  {
    assert ArcShaped(g, con) && ArcShaped(g, b) && b != con;
    var inv := (x: nat, p: nat) =>
      Reached(h, s, Start(h), x, p) && (x == con.to ==> Reached(h, s, Start(h), con.from, p));
    ReachedHere(h, s, Start(h));
    forall a: Arc, q: nat, p: nat {:trigger Fires(g, s, a, q, p)} |
      a in g.arcs && Reached(g, s, Start(g), a.from, q) && inv(a.from, q) && Fires(g, s, a, q, p)
      ensures inv(a.to, p)
    {
      if a == b {
        AtTarget(g, s, con, q);
        assert p == q;
        ReachedStep(h, s, Start(h), b.(from := con.from, to := z), q, q);
        ReachedStep(h, s, Start(h), con.(from := z, to := b.to), q, q);
        assert b.to != con.to;
      } else {
        ReachedStep(h, s, Start(h), a, q, p);
        assert a.to == con.to ==> a == con && p == q;
      }
    }
    Carry(g, h, s, inv);
  }

  lemma PushCompatibleBack(g: Net, h: Net, s: Subject, con: Arc, b: Arc, z: nat)
    requires Shaped(g) && SameEnds(g, h) && OnlyIn(g, con) && Forward(con.kind) && Unused(g, z)
    requires b in g.arcs && b.from == con.to && b.kind != EMPTY && Combine(con, b) == COMPATIBLE
    requires h.arcs == g.arcs - {b} + {con.(from := z, to := b.to), b.(from := con.from, to := z)}
    ensures Accepts(h, s) ==> Accepts(g, s)
  {
    assert ArcShaped(g, con) && ArcShaped(g, b) && b != con;
    var inv := (x: nat, p: nat) =>
      if x == z then Reached(g, s, Start(g), con.from, p) && Holds(g, s, b, p) else Reached(g, s, Start(g), x, p);
    ReachedHere(g, s, Start(g));
    forall a: Arc, q: nat, p: nat {:trigger Fires(h, s, a, q, p)} |
      a in h.arcs && Reached(h, s, Start(h), a.from, q) && inv(a.from, q) && Fires(h, s, a, q, p)
      ensures inv(a.to, p)
    {
      if a.from == z {
        assert a == con.(from := z, to := b.to) && !Reads(h, a) && p == q;
        ReachedStep(g, s, Start(g), con, q, q);
        ReachedStep(g, s, Start(g), b, q, q);
        assert inv(a.to, p);
      } else if a.to == z {
        assert a == b.(from := con.from, to := z) && !Reads(h, a) && !Reads(g, b);
        assert p == q && Holds(g, s, b, p);
        assert Reached(g, s, Start(g), con.from, p);
        assert inv(a.to, p);
      } else {
        ReachedStep(g, s, Start(g), a, q, p);
        assert inv(a.to, p);
      }
    }
    Carry(h, g, s, inv);
  }

  /** Arcs that satisfy the constraint before them incorporate it. */
  lemma PushSatisfied(g: Net, h: Net, con: Arc)
    requires Shaped(g) && DollarsKept(g) && SameEnds(g, h) && OnlyIn(g, con) && Forward(con.kind)
    requires forall b | b in g.arcs && b.from == con.to :: b.kind != EMPTY && Combine(con, b) == SATISFIED
    requires h.arcs == g.arcs - {con} - OutOf(g.arcs, con.to) + Resourced(g.arcs, con.to, con.from)
    ensures SameLanguage(g, h)
  {
    assert ArcShaped(g, con);
    forall s: Subject
      ensures Accepts(g, s) <==> Accepts(h, s)
    {
      PushSatisfiedForth(g, h, s, con);
      PushSatisfiedBack(g, h, s, con);
    }
  }

  lemma PushSatisfiedForth(g: Net, h: Net, s: Subject, con: Arc)
    requires SameEnds(g, h) && OnlyIn(g, con) && ArcShaped(g, con) && Forward(con.kind)
    requires h.arcs == g.arcs - {con} - OutOf(g.arcs, con.to) + Resourced(g.arcs, con.to, con.from)
    ensures Accepts(g, s) ==> Accepts(h, s)
  {
    var inv := (x: nat, p: nat) => Reached(h, s, Start(h), if x == con.to then con.from else x, p);
    ReachedHere(h, s, Start(h));
    forall a: Arc, q: nat, p: nat {:trigger Fires(g, s, a, q, p)} |
      a in g.arcs && Reached(g, s, Start(g), a.from, q) && inv(a.from, q) && Fires(g, s, a, q, p)
      ensures inv(a.to, p)
    {
      if a.from == con.to {
        ResourcedHas(g.arcs, con.to, con.from, a.(from := con.from));
        MovedFires(g, s, a, con.from, a.to, q, p);
        ReachedStep(h, s, Start(h), a.(from := con.from), q, p);
      } else if a != con {
        ReachedStep(h, s, Start(h), a, q, p);
      }
    }
    Carry(g, h, s, inv);
  }

  lemma PushSatisfiedBack(g: Net, h: Net, s: Subject, con: Arc)
    requires Shaped(g) && DollarsKept(g) && SameEnds(g, h) && OnlyIn(g, con) && ArcShaped(g, con) && Forward(con.kind)
    requires forall b | b in g.arcs && b.from == con.to :: b.kind != EMPTY && Combine(con, b) == SATISFIED
    requires h.arcs == g.arcs - {con} - OutOf(g.arcs, con.to) + Resourced(g.arcs, con.to, con.from)
    ensures Accepts(h, s) ==> Accepts(g, s)
  {
    forall a: Arc, q: nat, p: nat {:trigger Fires(h, s, a, q, p)} |
      a in h.arcs && Reached(h, s, Start(h), a.from, q) && Reached(g, s, Start(g), a.from, q) && Fires(h, s, a, q, p)
      ensures Reached(g, s, Start(g), a.to, p)
    {
      if a in g.arcs {
        ReachedStep(g, s, Start(g), a, q, p);
      } else {
        var b := a.(from := con.to);
        ResourcedHas(g.arcs, con.to, con.from, a);
        MovedFires(g, s, a, con.to, a.to, q, p);
        CombineAhead(g, s, con, b, q, p);
        ReachedStep(g, s, Start(g), con, q, q);
        ReachedStep(g, s, Start(g), b, q, p);
      }
    }
    Simulation(h, g, s);
  }

  // ----- the shape is kept

  ghost predicate NoEmpties(g: Net) {
    forall a | a in g.arcs :: a.kind != EMPTY
  }

  /** An arc led from one inner state to another, at either end. */
  ghost predicate Relocated(g: Net, b: Arc, a: Arc) {
    && a == b.(from := a.from, to := a.to)
    && (a.from == b.from || (Inner(g, a.from) && Inner(g, b.from)))
    && (a.to == b.to || (Inner(g, a.to) && Inner(g, b.to)))
  }

  ghost predicate Derived(g: Net, h: Net) {
    SameEnds(g, h) && forall a | a in h.arcs :: exists b :: b in g.arcs && Relocated(g, b, a)
  }

  /** The kinds and colors of arcs. */
  ghost function Labels(arcs: set<Arc>): set<(Kind, nat)> {
    set a | a in arcs :: (a.kind, a.co)
  }

  lemma DerivedKeeps(g: Net, h: Net)
    requires Derived(g, h)
    ensures Labels(h.arcs) <= Labels(g.arcs)
    ensures Shaped(g) ==> Shaped(h)
    ensures CaretsKept(g) ==> CaretsKept(h)
    ensures DollarsKept(g) ==> DollarsKept(h)
    ensures NoEmpties(g) ==> NoEmpties(h)
  {
    forall a | a in h.arcs
      ensures Shaped(g) ==> ArcShaped(h, a)
    {
      var b :| b in g.arcs && Relocated(g, b, a);
      assert Shaped(g) ==> ArcShaped(g, b);
    }
  }
}
