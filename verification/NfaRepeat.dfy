/** Quantifiers (regcomp.c): `repeat` turns a part for x into one for x{m,n}. */
module NfaRepeat {
  import opened Nets
  import opened NetRewrites
  import opened NetFragments
  import opened Nfas
  import opened NfaDup
  import opened NfaDelete

  // ----- counting repetitions

  lemma TimesNone(R: Relation, p: nat, q: nat)
    ensures Times(R, 0, 0, p, q) <==> p == q
  {
    if p == q {
      assert Between(0, 0, 0) && Power(R, 0, p, q);
    }
  }

  /** x{0,n} is x{1,n} or nothing. */
  lemma TimesOptional(R: Relation, n: nat, p: nat, q: nat)
    requires n >= 1
    ensures Times(R, 0, n, p, q) <==> p == q || Times(R, 1, n, p, q)
  {
    if k: nat :| Between(0, n, k) && Power(R, k, p, q) {
      assert k > 0 ==> Between(1, n, k);
    }
    if k: nat :| Between(1, n, k) && Power(R, k, p, q) {
      assert Between(0, n, k);
    }
    if p == q {
      assert Between(0, n, 0) && Power(R, 0, p, q);
    }
  }

  lemma TimesOnce(R: Relation, p: nat, q: nat)
    ensures Times(R, 1, 1, p, q) <==> R(p, q)
  {
    if k: nat :| Between(1, 1, k) && Power(R, k, p, q) {
      var j: nat := k - 1;
      var r: nat :| Once(R, j, p, r, q);
      assert j == 0 && Power(R, 0, p, r);
    }
    if R(p, q) {
      assert Power(R, 0, p, p);
      PowerNext(R, 0, p, p, q);
      assert Between(1, 1, 1);
    }
  }

  lemma PowerLast(R: Relation, k: nat, p: nat, q: nat) returns (r: nat)
    requires k > 0 && Power(R, k, p, q)
    ensures Power(R, k - 1, p, r) && R(r, q)
  {
    var j: nat := k - 1;
    r :| Once(R, j, p, r, q);
  }

  /** One more than n, or still no bound. */
  function Up(n: nat): nat {
    if n == INFINITY then n else n + 1
  }

  /** x{m+1,n+1} is x{m,n}x. */
  lemma TimesAndOne(R: Relation, m: nat, n: nat, p: nat, q: nat)
    requires n <= INFINITY && n != INFINITY - 1
    ensures Times(R, m + 1, Up(n), p, q) <==> exists r: nat :: Times(R, m, n, p, r) && R(r, q)
  {
    if k: nat :| Between(m + 1, Up(n), k) && Power(R, k, p, q) {
      var r := PowerLast(R, k, p, q);
      assert Between(m, n, k - 1);
      assert Times(R, m, n, p, r);
    }
    if r: nat :| Times(R, m, n, p, r) && R(r, q) {
      TimesNext(R, m, n, p, r, q);
    }
  }

  lemma {:induction false} PowerSame(R: Relation, S: Relation, k: nat, p: nat, q: nat)
    requires forall x: nat, y: nat :: R(x, y) <==> S(x, y)
    ensures Power(R, k, p, q) ==> Power(S, k, p, q)
    decreases k
  {
    if k > 0 && Power(R, k, p, q) {
      var r := PowerLast(R, k, p, q);
      PowerSame(R, S, k - 1, p, r);
      PowerNext(S, k - 1, p, r, q);
    }
  }

  lemma TimesSame(R: Relation, S: Relation, m: nat, n: nat, p: nat, q: nat)
    requires forall x: nat, y: nat :: R(x, y) <==> S(x, y)
    ensures Times(R, m, n, p, q) <==> Times(S, m, n, p, q)
  {
    if k: nat :| Between(m, n, k) && Power(R, k, p, q) {
      PowerSame(R, S, k, p, q);
    }
    if k: nat :| Between(m, n, k) && Power(S, k, p, q) {
      PowerSame(S, R, k, p, q);
    }
  }

  // ----- what each step of the construction means

  /** A part of g and a part of h read the same. */
  ghost predicate SameRel(g: Net, lp: nat, B: set<nat>, rp: nat, h: Net, lp': nat, B': set<nat>, rp': nat) {
    forall s: Subject, p: nat, q: nat :: Passes(g, s, lp, B, rp, p, q) <==> Passes(h, s, lp', B', rp', p, q)
  }

  /** In h the part reads x{m,n}, for x what it reads in g. */
  ghost predicate Repeated(g: Net, lp: nat, B: set<nat>, rp: nat, m: nat, n: nat, h: Net, lp': nat, C: set<nat>, rp': nat) {
    forall s: Subject, p: nat, q: nat :: Passes(h, s, lp', C, rp', p, q) <==> Times(Rel(g, s, lp, B, rp), m, n, p, q)
  }

  lemma RepeatedSame(g: Net, lp: nat, B: set<nat>, rp: nat, g1: Net, lp1: nat, B1: set<nat>, rp1: nat, m: nat, n: nat,
                     h: Net, lp': nat, C: set<nat>, rp': nat)
    requires SameRel(g, lp, B, rp, g1, lp1, B1, rp1) && Repeated(g1, lp1, B1, rp1, m, n, h, lp', C, rp')
    ensures Repeated(g, lp, B, rp, m, n, h, lp', C, rp')
  {
    forall s: Subject, p: nat, q: nat
      ensures Passes(h, s, lp', C, rp', p, q) <==> Times(Rel(g, s, lp, B, rp), m, n, p, q)
    {
      var R, S := Rel(g, s, lp, B, rp), Rel(g1, s, lp1, B1, rp1);
      forall x: nat, y: nat ensures R(x, y) <==> S(x, y) {}
      TimesSame(R, S, m, n, p, q);
    }
  }

  lemma RepeatedOnce(g: Net, lp: nat, B: set<nat>, rp: nat)
    ensures Repeated(g, lp, B, rp, 1, 1, g, lp, B, rp)
  {
    forall s: Subject, p: nat, q: nat
      ensures Passes(g, s, lp, B, rp, p, q) <==> Times(Rel(g, s, lp, B, rp), 1, 1, p, q)
    {
      TimesOnce(Rel(g, s, lp, B, rp), p, q);
    }
  }

  /** An EMPTY arc turns x{1,n} into x{0,n}. */
  lemma RepeatedOptional(g: Net, lp: nat, B: set<nat>, rp: nat, n: nat, h: Net, h': Net, lp': nat, C: set<nat>, rp': nat)
    requires n >= 1 && Repeated(g, lp, B, rp, 1, n, h, lp', C, rp')
    requires forall s: Subject, p: nat, q: nat :: Passes(h', s, lp', C, rp', p, q) <==> p == q || Passes(h, s, lp', C, rp', p, q)
    ensures Repeated(g, lp, B, rp, 0, n, h', lp', C, rp')
  {
    forall s: Subject, p: nat, q: nat
      ensures Passes(h', s, lp', C, rp', p, q) <==> Times(Rel(g, s, lp, B, rp), 0, n, p, q)
    {
      TimesOptional(Rel(g, s, lp, B, rp), n, p, q);
    }
  }

  /** x{m,n} followed by x. */
  lemma RepeatedAndOne(g: Net, lp: nat, B: set<nat>, rp: nat, m: nat, n: nat, h: Net, D: set<nat>, z: nat)
    requires Repeated(g, lp, B, rp, m, n, h, lp, D, z) && n <= INFINITY && n != INFINITY - 1
    requires SameRel(g, lp, B, rp, h, z, B, rp)
    requires Frag(h, lp, D, z) && Frag(h, z, B, rp) && D !! B && lp !in B && lp != rp && rp !in D
    ensures Frag(h, lp, D + {z} + B, rp) && Outside(h, lp, D + {z} + B) == Outside(h, lp, D) - Inside(h, z, B)
    ensures Repeated(g, lp, B, rp, m + 1, Up(n), h, lp, D + {z} + B, rp)
  {
    Composed(h, lp, D, z, B, rp);
    forall s: Subject, p: nat, q: nat
      ensures Passes(h, s, lp, D + {z} + B, rp, p, q) <==> Times(Rel(g, s, lp, B, rp), m + 1, Up(n), p, q)
    {
      var R := Rel(g, s, lp, B, rp);
      TimesAndOne(R, m, n, p, q);
      if r: nat :| Passes(h, s, lp, D, z, p, r) && Passes(h, s, z, B, rp, r, q) {
        assert Times(R, m, n, p, r) && R(r, q);
      }
      if r: nat :| Times(R, m, n, p, r) && R(r, q) {
        assert Passes(h, s, lp, D, z, p, r) && Passes(h, s, z, B, rp, r, q);
      }
    }
  }

  /** A part beside another that has changed is as it was. */
  lemma Beside(h: Net, h': Net, lp: nat, C: set<nat>, D: set<nat>, z: nat, B: set<nat>, rp: nat)
    requires SameEnds(h, h') && Frag(h, lp, C, z) && Frag(h, z, B, rp) && Frag(h', lp, D, z)
    requires Outside(h', lp, D) == Outside(h, lp, C) && D !! B && C !! B && rp !in D && lp !in B && lp != rp
    ensures Frag(h', z, B, rp) && Inside(h', z, B) == Inside(h, z, B)
    ensures SameRel(h, z, B, rp, h', z, B, rp)
  {
    forall a | a in h'.arcs
      ensures FragArc(a, z, B, rp)
      ensures a in Inside(h', z, B) ==> a in h.arcs
    {
      assert FragArc(a, lp, D, z);
      if a in Outside(h', lp, D) {
        assert a in h.arcs && FragArc(a, z, B, rp);
      }
    }
    forall a | a in Inside(h, z, B)
      ensures a in h'.arcs
    {
      assert a in Outside(h, lp, C);
    }
    assert FragNet(h', z, B) == FragNet(h, z, B);
  }

  // ----- repeat

  ghost predicate Part(n: Nfa, lp: nat, B: set<nat>, rp: nat)
    reads n
  {
    && n.Valid() && n.tmp == map[] && Frag(n.G(), lp, B, rp) && lp in n.states && rp in n.states
    && forall x | x in B :: x in n.states
  }

  /** Two copies of the part in a row, the first one new; z is between. */
  method Double(n: Nfa, lp: nat, rp: nat, ghost B: set<nat>) returns (z: nat, ghost C: set<nat>)
    requires Part(n, lp, B, rp)
    modifies n
    ensures Part(n, lp, C, z) && Part(n, z, B, rp) && SameEnds(old(n.G()), n.G())
    ensures SameRel(old(n.G()), lp, B, rp, n.G(), lp, C, z) && SameRel(old(n.G()), lp, B, rp, n.G(), z, B, rp)
    ensures Outside(n.G(), lp, C) - Inside(n.G(), z, B) == Outside(old(n.G()), lp, B)
    ensures z >= old(n.next) && forall x | x in C :: x >= old(n.next)
    ensures old(n.next) <= n.next && forall x | x in old(n.states) :: x in n.states && x < old(n.next)
  {
    ghost var g := n.G();
    Below(n);
    z := n.NewState();
    MoveStart(n, lp, rp, z, B);
    ghost var g1, base := n.G(), n.next;
    ghost var c := Plan(g1, z, B, rp, lp, z);
    Below(n);
    n.States();
    ghost var t := DupNfa(n, z, rp, lp, z, B);
    Duplicated(c, t, base, n.G());
    C := Dups(c, t);
    assert FragNet(n.G(), z, B) == FragNet(g1, z, B);
    Below(n);
  }

  lemma NoOuts(g: Net, h: Net, lp: nat, z: nat)
    requires h.arcs == g.arcs - OutOf(g.arcs, lp) + Resourced(g.arcs, lp, z) && Unused(g, z) && lp != z
    ensures forall a | a in h.arcs :: a.from != lp && a.to != z
  {
    forall a | a in h.arcs
      ensures a.from != lp && a.to != z
    {
      ResourcedHas(g.arcs, lp, z, a);
    }
  }

  /** An EMPTY arc past the part. */
  method Skip(n: Nfa, lp: nat, rp: nat, ghost B: set<nat>)
    requires Part(n, lp, B, rp)
    modifies n`outs, n`ins, n`arcs, n`colors
    ensures Part(n, lp, B, rp) && SameEnds(old(n.G()), n.G()) && Outside(n.G(), lp, B) == Outside(old(n.G()), lp, B)
    ensures forall s: Subject, p: nat, q: nat ::
      Passes(n.G(), s, lp, B, rp, p, q) <==> p == q || Passes(old(n.G()), s, lp, B, rp, p, q)
    ensures n.arcs == old(n.arcs) + {Arc(EMPTY, 0, lp, rp)}
  {
    ghost var g := n.G();
    n.NewArc(EMPTY, 0, lp, rp);
    Optional(g, n.G(), lp, B, rp);
  }

  /** What `repeat` promises about the states: C is made of the part's own and of new ones. */
  ghost predicate NewStates(n: Nfa, states: seq<nat>, next: nat, B: set<nat>, C: set<nat>)
    reads n
  {
    && next <= n.next && (forall x | x in states :: x < next && (x in n.states || x in B))
    && forall x | x in C :: x in B || x >= next
  }

  /** x{0,0}: delete the part. */
  method RepeatNone(n: Nfa, lp: nat, rp: nat, ghost B: set<nat>) returns (ghost C: set<nat>)
    requires Part(n, lp, B, rp) && AllAfter(n.G(), lp, B)
    modifies n
    ensures Part(n, lp, C, rp) && Outside(n.G(), lp, C) == Outside(old(n.G()), lp, B)
    ensures Repeated(old(n.G()), lp, B, rp, 0, 0, n.G(), lp, C, rp)
    ensures NewStates(n, old(n.states), old(n.next), B, C)
  {
    ghost var g := n.G();
    Below(n);
    DelSub(n, lp, rp, B);
    C := {};
    ghost var h := n.G();
    forall a | a in h.arcs
      ensures FragArc(a, lp, {}, rp)
    {
      assert FragArc(a, lp, B, rp);
    }
    Skip(n, lp, rp, {});
    forall s: Subject, p: nat, q: nat
      ensures Passes(n.G(), s, lp, {}, rp, p, q) <==> Times(Rel(g, s, lp, B, rp), 0, 0, p, q)
    {
      TimesNone(Rel(g, s, lp, B, rp), p, q);
      NothingInside(h, s, lp, rp, p, q);
    }
  }

  /** A part without arcs is passed by nothing. */
  lemma NothingInside(g: Net, s: Subject, lp: nat, rp: nat, p: nat, q: nat)
    requires lp != rp && forall a | a in g.arcs :: a.from != lp
    ensures !Passes(g, s, lp, {}, rp, p, q)
  {
    if Passes(g, s, lp, {}, rp, p, q) {
      var a, r := ReachedLast(FragNet(g, lp, {}), s, Config(lp, p), rp, q);
    }
  }

  /** Move the start of the part from lp to the new state s. */
  method MoveStart(n: Nfa, lp: nat, rp: nat, s: nat, ghost B: set<nat>)
    requires Part(n, lp, B, rp) && Unused(n.G(), s) && s in n.states && s != lp && s != rp && s !in B
    modifies n`outs, n`ins, n`arcs, n`colors
    ensures Part(n, s, B, rp) && SameEnds(old(n.G()), n.G()) && SameRel(old(n.G()), lp, B, rp, n.G(), s, B, rp)
    ensures Outside(n.G(), s, B) == Outside(old(n.G()), lp, B)
    ensures forall a | a in n.arcs :: a.from != lp && a.to != s
    ensures forall z | z != s && Unused(old(n.G()), z) :: Unused(n.G(), z)
  {
    ghost var g := n.G();
    n.MoveOuts(lp, s);
    MovedStart(g, n.G(), lp, B, rp, s);
    NoOuts(g, n.G(), lp, s);
    StillUnused(g, n.G(), lp, s);
  }

  lemma StillUnused(g: Net, h: Net, lp: nat, s: nat)
    requires SameEnds(g, h) && h.arcs == g.arcs - OutOf(g.arcs, lp) + Resourced(g.arcs, lp, s)
    ensures forall z | z != s && Unused(g, z) :: Unused(h, z)
  {
    forall z, a | z != s && Unused(g, z) && a in h.arcs
      ensures a.from != z && a.to != z
    {
      ResourcedHas(g.arcs, lp, s, a);
    }
  }

  /** x{0,}: loop x around. */
  method RepeatAny(n: Nfa, lp: nat, rp: nat, ghost B: set<nat>) returns (ghost C: set<nat>)
    requires Part(n, lp, B, rp)
    modifies n
    ensures Part(n, lp, C, rp) && Outside(n.G(), lp, C) == Outside(old(n.G()), lp, B)
    ensures Repeated(old(n.G()), lp, B, rp, 0, INFINITY, n.G(), lp, C, rp)
    ensures NewStates(n, old(n.states), old(n.next), B, C)
  {
    ghost var g := n.G();
    Below(n);
    var s := n.NewState();
    MoveStart(n, lp, rp, s, B);
    ghost var g1 := n.G();
    LoopAround(n, lp, s, rp, B);
    C := B + {s};
    RepeatedSame(g, lp, B, rp, g1, s, B, rp, 0, INFINITY, n.G(), lp, C, rp);
  }

  method LoopAround(n: Nfa, lp: nat, s: nat, rp: nat, ghost B: set<nat>)
    requires Part(n, s, B, rp) && lp in n.states && Inner(n.G(), lp) && lp !in B && lp != rp && lp != s
    requires forall a | a in n.arcs :: a.from != lp && a.to != s
    modifies n`outs, n`ins, n`arcs, n`colors
    ensures Part(n, lp, B + {s}, rp) && Outside(n.G(), lp, B + {s}) == Outside(old(n.G()), s, B)
    ensures Repeated(old(n.G()), s, B, rp, 0, INFINITY, n.G(), lp, B + {s}, rp)
  {
    ghost var g := n.G();
    n.MoveIns(rp, s);
    n.NewArc(EMPTY, 0, lp, s);
    n.NewArc(EMPTY, 0, s, rp);
    forall a
      ensures a in n.arcs <==> (a in g.arcs && a.to != rp) || (a.to == s && a.(to := rp) in g.arcs)
                               || a == Arc(EMPTY, 0, lp, s) || a == Arc(EMPTY, 0, s, rp)
    {
      RedirectedHas(g.arcs, rp, s, a);
    }
    Looped(g, n.G(), lp, s, B, rp);
  }

  /** x{1,}: add a loopback arc. */
  method RepeatSome(n: Nfa, lp: nat, rp: nat, ghost B: set<nat>) returns (ghost C: set<nat>)
    requires Part(n, lp, B, rp)
    modifies n
    ensures Part(n, lp, C, rp) && Outside(n.G(), lp, C) == Outside(old(n.G()), lp, B)
    ensures Repeated(old(n.G()), lp, B, rp, 1, INFINITY, n.G(), lp, C, rp)
    ensures NewStates(n, old(n.states), old(n.next), B, C)
  {
    ghost var g := n.G();
    Below(n);
    var s := n.NewState();
    assert Unused(n.G(), s);
    var s2 := n.NewState();
    MoveStart(n, lp, rp, s, B);
    ghost var g1 := n.G();
    LoopBack(n, lp, s, s2, rp, B);
    C := B + {s, s2};
    RepeatedSame(g, lp, B, rp, g1, s, B, rp, 1, INFINITY, n.G(), lp, C, rp);
  }

  method LoopBack(n: Nfa, lp: nat, s: nat, s2: nat, rp: nat, ghost B: set<nat>)
    requires Part(n, s, B, rp) && lp in n.states && s2 in n.states && Inner(n.G(), lp) && Unused(n.G(), s2)
    requires lp !in B && lp != rp && lp != s && s2 !in B && s2 != s && s2 != rp && s2 != lp
    requires forall a | a in n.arcs :: a.from != lp && a.to != s
    modifies n`outs, n`ins, n`arcs, n`colors
    ensures Part(n, lp, B + {s, s2}, rp) && Outside(n.G(), lp, B + {s, s2}) == Outside(old(n.G()), s, B)
    ensures Repeated(old(n.G()), s, B, rp, 1, INFINITY, n.G(), lp, B + {s, s2}, rp)
  {
    ghost var g := n.G();
    MoveEnd(n, lp, s, s2, rp, B);
    ghost var g2 := n.G();
    LoopArcs(n, lp, s, s2, rp, B);
    RepeatedSame(g, s, B, rp, g2, s, B, s2, 1, INFINITY, n.G(), lp, B + {s, s2}, rp);
  }

  method MoveEnd(n: Nfa, lp: nat, s: nat, s2: nat, rp: nat, ghost B: set<nat>)
    requires Part(n, s, B, rp) && s2 in n.states && Unused(n.G(), s2)
    requires lp != rp && lp != s && s2 !in B && s2 != s && s2 != rp && s2 != lp
    requires forall a | a in n.arcs :: a.from != lp && a.to != s
    modifies n`outs, n`ins, n`arcs, n`colors
    ensures Part(n, s, B, s2) && Outside(n.G(), s, B) == Outside(old(n.G()), s, B) && SameEnds(old(n.G()), n.G())
    ensures SameRel(old(n.G()), s, B, rp, n.G(), s, B, s2)
    ensures forall a | a in n.arcs :: a.from != lp && a.from != s2 && a.to != s && a.to != rp
  {
    ghost var g := n.G();
    n.MoveIns(rp, s2);
    MovedEnd(g, n.G(), s, B, rp, s2);
    NoIns(g, n.G(), lp, s, rp, s2);
  }

  method LoopArcs(n: Nfa, lp: nat, s: nat, s2: nat, rp: nat, ghost B: set<nat>)
    requires Part(n, s, B, s2) && lp in n.states && rp in n.states && Inner(n.G(), lp) && Inner(n.G(), rp)
    requires lp !in B && lp != rp && lp != s && s2 != rp && s2 != lp && rp !in B && rp != s
    requires forall a | a in n.arcs :: a.from != lp && a.from != s2 && a.to != s && a.to != rp
    modifies n`outs, n`ins, n`arcs, n`colors
    ensures Part(n, lp, B + {s, s2}, rp) && Outside(n.G(), lp, B + {s, s2}) == Outside(old(n.G()), s, B)
    ensures Repeated(old(n.G()), s, B, s2, 1, INFINITY, n.G(), lp, B + {s, s2}, rp)
  {
    ghost var g2 := n.G();
    n.NewArc(EMPTY, 0, lp, s);
    n.NewArc(EMPTY, 0, s2, rp);
    n.NewArc(EMPTY, 0, s2, s);
    LoopedBack(g2, n.G(), lp, s, B, s2, rp);
  }

  lemma NoIns(g1: Net, g2: Net, lp: nat, s: nat, rp: nat, s2: nat)
    requires g2.arcs == g1.arcs - Into(g1.arcs, rp) + Redirected(g1.arcs, rp, s2) && rp != s2 && s != s2 && s != rp
    requires forall a | a in g1.arcs :: a.from != lp && a.to != s && a.from != s2 && a.to != s2
    ensures forall a | a in g2.arcs :: a.from != lp && a.from != s2 && a.to != s && a.to != rp
  {
    forall a | a in g2.arcs
      ensures a.from != lp && a.from != s2 && a.to != s && a.to != rp
    {
      RedirectedHas(g1.arcs, rp, s2, a);
    }
  }

  /** x{m,n} as x{m-1,n-1}x, and for x{1,n} with x{1,n-1} or nothing in front. */
  method RepeatMore(n: Nfa, lp: nat, rp: nat, m: nat, max: nat, ghost B: set<nat>) returns (ghost C: set<nat>)
    requires Part(n, lp, B, rp) && 1 <= m <= max <= INFINITY && max > 1 && m < INFINITY
    requires max == INFINITY ==> m > 1
    modifies n
    ensures Part(n, lp, C, rp) && Outside(n.G(), lp, C) == Outside(old(n.G()), lp, B)
    ensures Repeated(old(n.G()), lp, B, rp, m, max, n.G(), lp, C, rp)
    ensures NewStates(n, old(n.states), old(n.next), B, C)
    decreases max, 0, m, 0
  {
    ghost var g := n.G();
    var s, D0 := Double(n, lp, rp, B);
    ghost var h := n.G();
    var less := if max == INFINITY then max else max - 1;
    ghost var D := Repeat(n, lp, s, if m == 1 then 1 else m - 1, less, D0);
    RepeatedSame(g, lp, B, rp, h, lp, D0, s, if m == 1 then 1 else m - 1, less, n.G(), lp, D, s);
    if m == 1 {
      ghost var h1 := n.G();
      Skip(n, lp, s, D);
      RepeatedOptional(g, lp, B, rp, less, h1, n.G(), lp, D, s);
    }
    Beside(h, n.G(), lp, D0, D, s, B, rp);
    RepeatedAndOne(g, lp, B, rp, m - 1, less, n.G(), D, s);
    C := D + {s} + B;
  }

  /** `repeat`: replicate the part for a quantifier {m,max}. */
  method Repeat(n: Nfa, lp: nat, rp: nat, m: nat, max: nat, ghost B: set<nat>) returns (ghost C: set<nat>)
    requires Part(n, lp, B, rp) && m <= max <= INFINITY && m < INFINITY
    requires max == 0 ==> AllAfter(n.G(), lp, B)
    modifies n
    ensures Part(n, lp, C, rp) && Outside(n.G(), lp, C) == Outside(old(n.G()), lp, B)
    ensures Repeated(old(n.G()), lp, B, rp, m, max, n.G(), lp, C, rp)
    ensures NewStates(n, old(n.states), old(n.next), B, C)
    decreases max, if m == 0 then 1 else 0, m, 1
  {
    ghost var g := n.G();
    Below(n);
    if m == 0 && max == 0 {
      C := RepeatNone(n, lp, rp, B);
    } else if m == 0 && max == INFINITY {
      C := RepeatAny(n, lp, rp, B);
    } else if m == 0 {
      C := B;
      if max > 1 {
        C := Repeat(n, lp, rp, 1, max, B);
      } else {
        RepeatedOnce(g, lp, B, rp);
      }
      ghost var h := n.G();
      Skip(n, lp, rp, C);
      RepeatedOptional(g, lp, B, rp, max, h, n.G(), lp, C, rp);
    } else if m == 1 && max == 1 {
      C := B;
      RepeatedOnce(g, lp, B, rp);
    } else if m == 1 && max == INFINITY {
      C := RepeatSome(n, lp, rp, B);
    } else {
      C := RepeatMore(n, lp, rp, m, max, B);
    }
  }
}
