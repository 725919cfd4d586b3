/** What the arcs of an NFA denote while characters are moved to new colors (regc_color.c, regcomp.c), and that every
    step keeps it. */
module ColorArcs {
  import opened Nets
  import opened Nfas
  import opened Colors
  import opened ColorSteps
  import opened ColorMaps

  /** An arc of color co stands for color x: the color itself, or its open subcolor. */
  predicate Stands(cd: seq<ColorDesc>, co: nat, x: nat) {
    x == co || (co < |cd| && !cd[co].free && cd[co].sub == x)
  }

  /** Some arc of this kind between these states stands for color x. */
  ghost predicate Denotes(arcs: set<Arc>, cd: seq<ColorDesc>, x: nat, kind: Kind, from: nat, to: nat) {
    exists co: nat :: Arc(kind, co, from, to) in arcs && Stands(cd, co, x)
  }

  /** Only colors in use are on arcs. */
  ghost predicate ArcsUsed(arcs: set<Arc>, m: Cm) {
    forall a | a in arcs && HasColor(a.kind) :: a.co <= m.max < |m.cd| && !m.cd[a.co].free
  }

  /** The color of a single character, which it keeps. */
  predicate Single(m: Cm, co: nat) {
    co < |m.cd| && !m.cd[co].free && !m.cd[co].pseudo && m.cd[co].sub == NOSUB && m.cd[co].nchrs == 1
  }

  /** A bracket expression between lp and rp is being read: arcs of open subcolors are its own, and it has no others
      but those of single characters. */
  ghost predicate Bracketing(arcs: set<Arc>, m: Cm, lp: nat, rp: nat) {
    && m.max < |m.cd| && ArcsUsed(arcs, m)
    && (forall a | a in arcs && HasColor(a.kind) && IsOpenIn(m, a.co) :: a == Arc(PLAIN, a.co, lp, rp))
    && (forall s: nat | IsOpenIn(m, s) :: Arc(PLAIN, s, lp, rp) in arcs && m.cd[s].nchrs > 0)
    && forall co: nat | Arc(PLAIN, co, lp, rp) in arcs :: IsOpenIn(m, co) || Single(m, co)
  }

  predicate IsOpenIn(m: Cm, s: nat) {
    s <= m.max && s < |m.cd| && IsOpen(m.cd, s)
  }

  // ----- one step: some characters of color co move to its subcolor sco

  /** What `newsub` and the step after it do to the descriptors and arcs. */
  ghost predicate Listing(arcs: set<Arc>, m: Cm, arcs': set<Arc>, m': Cm, lp: nat, rp: nat, co: nat, sco: nat) {
    && TightMap(m) && Counted(m) && Bracketing(arcs, m, lp, rp) && IsReal(m.cd, m.max, co)
    && Subcolored(m, m', co, sco) && arcs' == arcs + {Arc(PLAIN, sco, lp, rp)}
  }

  /** Characters of another color, or of the same one but not listed, are denoted as before. */
  lemma ListedOthers(arcs: set<Arc>, m: Cm, arcs': set<Arc>, m': Cm, lp: nat, rp: nat, co: nat, sco: nat, x: nat, kind: Kind, from: nat, to: nat)
    requires Listing(arcs, m, arcs', m', lp, rp, co, sco) && HasColor(kind) && IsReal(m.cd, m.max, x)
    requires Single(m, co) ==> x != co
    ensures Denotes(arcs', m'.cd, x, kind, from, to) <==> Denotes(arcs, m.cd, x, kind, from, to)
  {
    if k: nat :| Arc(kind, k, from, to) in arcs && Stands(m.cd, k, x) {
      assert Stands(m'.cd, k, x);
    }
    if k: nat :| Arc(kind, k, from, to) in arcs' && Stands(m'.cd, k, x) {
      OthersBefore(arcs, m, arcs', m', lp, rp, co, sco, x, Arc(kind, k, from, to));
    }
  }

  lemma OthersBefore(arcs: set<Arc>, m: Cm, arcs': set<Arc>, m': Cm, lp: nat, rp: nat, co: nat, sco: nat, x: nat, a: Arc)
    requires Listing(arcs, m, arcs', m', lp, rp, co, sco) && HasColor(a.kind) && IsReal(m.cd, m.max, x)
    requires Single(m, co) ==> x != co
    requires a in arcs' && Stands(m'.cd, a.co, x)
    ensures a in arcs && Stands(m.cd, a.co, x)
  {
    LoosenMap(m);
  }

  /** The listed characters are denoted as before, and by the bracket expression. */
  lemma ListedSelf(arcs: set<Arc>, m: Cm, arcs': set<Arc>, m': Cm, lp: nat, rp: nat, co: nat, sco: nat, kind: Kind, from: nat, to: nat)
    requires Listing(arcs, m, arcs', m', lp, rp, co, sco) && HasColor(kind)
    ensures Denotes(arcs', m'.cd, sco, kind, from, to) <==>
              Denotes(arcs, m.cd, co, kind, from, to) || (kind == PLAIN && from == lp && to == rp)
  {
    LoosenMap(m);
    if k: nat :| Arc(kind, k, from, to) in arcs && Stands(m.cd, k, co) {
      if k != co {
        assert IsParent(m.cd, k) && sco == co;
      }
      assert Stands(m'.cd, k, sco);
    }
    assert Arc(PLAIN, sco, lp, rp) in arcs' && Stands(m'.cd, sco, sco);
    if k: nat :| Arc(kind, k, from, to) in arcs' && Stands(m'.cd, k, sco) {
      if Arc(kind, k, from, to) in arcs && !(kind == PLAIN && from == lp && to == rp) {
        SelfBefore(arcs, m, arcs', m', lp, rp, co, sco, Arc(kind, k, from, to));
      }
    }
  }

  lemma SelfBefore(arcs: set<Arc>, m: Cm, arcs': set<Arc>, m': Cm, lp: nat, rp: nat, co: nat, sco: nat, a: Arc)
    requires Listing(arcs, m, arcs', m', lp, rp, co, sco) && HasColor(a.kind) && a in arcs && Stands(m'.cd, a.co, sco)
    requires !(a.kind == PLAIN && a.from == lp && a.to == rp)
    ensures Stands(m.cd, a.co, co)
  {
    LoosenMap(m);
    assert !IsOpenIn(m, a.co);
    if a.co != co && a.co != sco {
      assert m'.cd[a.co].sub == m.cd[a.co].sub == sco;
      assert IsParent(m.cd, a.co);
    }
  }

  lemma ListedBracketing(arcs: set<Arc>, m: Cm, arcs': set<Arc>, m': Cm, lp: nat, rp: nat, co: nat, sco: nat)
    requires Listing(arcs, m, arcs', m', lp, rp, co, sco)
    requires m'.cd[sco].nchrs > 0 && !m'.cd[sco].free && !m'.cd[sco].pseudo
    ensures Bracketing(arcs', m', lp, rp)
  {
    LoosenMap(m);
    assert m.cd[co].sub != NOSUB && sco != co ==> IsParent(m.cd, co);
    forall a | a in arcs' && HasColor(a.kind)
      ensures a.co <= m'.max && !m'.cd[a.co].free
      ensures IsOpenIn(m', a.co) ==> a == Arc(PLAIN, a.co, lp, rp)
    {
      if a in arcs && a.co != sco && a.co != co {
        assert IsOpenIn(m', a.co) ==> IsOpenIn(m, a.co);
      }
    }
    forall s: nat | IsOpenIn(m', s)
      ensures Arc(PLAIN, s, lp, rp) in arcs' && m'.cd[s].nchrs > 0
    {
      if s != sco {
        assert s != co && IsOpenIn(m, s);
      }
    }
    forall k: nat | Arc(PLAIN, k, lp, rp) in arcs'
      ensures IsOpenIn(m', k) || Single(m', k)
    {
      if k != sco {
        assert Arc(PLAIN, k, lp, rp) in arcs && k <= m.max && !m.cd[k].free;
        assert k != co ==> m'.cd[k].sub == m.cd[k].sub;
      }
    }
  }
}
