/** Promoting subcolors to full colors, and whole bracket expressions, plain and complemented (regc_color.c,
    regcomp.c). */
module ColorPromote {
  import opened Nets
  import opened NetRewrites
  import opened Nfas
  import opened Colors
  import opened ColorSteps
  import opened ColorMaps
  import opened ColorArcs
  import opened ColorBrackets

  /** The arcs of a color. */
  ghost function OfColor(arcs: set<Arc>, co: nat): set<Arc> {
    set a | a in arcs && HasColor(a.kind) && a.co == co
  }

  ghost function Recolored(arcs: set<Arc>, sco: nat): set<Arc> {
    set a | a in arcs :: a.(co := sco)
  }

  lemma RecoloredHas(arcs: set<Arc>, co: nat, sco: nat, b: Arc)
    requires forall a | a in arcs :: a.co == co
    ensures b in Recolored(arcs, sco) <==> b.co == sco && b.(co := co) in arcs
  {
    if b.co == sco && b.(co := co) in arcs {
      assert b == b.(co := co).(co := sco);
    }
  }

  /** Before color i is looked at. */
  ghost predicate Promoting(arcs: set<Arc>, m: Cm, lp: nat, rp: nat, i: nat) {
    && m.max < |m.cd| && ArcsUsed(arcs, m)
    && (forall a | a in arcs && HasColor(a.kind) && IsOpenIn(m, a.co) :: a == Arc(PLAIN, a.co, lp, rp))
    && (forall s: nat | IsOpenIn(m, s) :: m.cd[s].nchrs > 0)
    && (forall p: nat | IsParentIn(m, p) :: Arc(PLAIN, p, lp, rp) !in arcs)
    && forall p: nat | p < i :: !IsParentIn(m, p)
  }

  predicate IsParentIn(m: Cm, p: nat) {
    p <= m.max && p < |m.cd| && IsParent(m.cd, p)
  }

  /** What every arc denotes is the same. */
  ghost predicate Keeps(arcs: set<Arc>, m: Cm, arcs': set<Arc>, m': Cm) {
    && m'.tab == m.tab && m'.rows == m.rows && SameUncolored(arcs, arcs')
    && (forall a | a in arcs' :: Linking(arcs, a.from, a.to))
    && forall c: nat, kind, from, to | InAlphabet(m.tab, m.rows, c) && HasColor(kind) ::
         DenotesChar(arcs', m', c, kind, from, to) <==> DenotesChar(arcs, m, c, kind, from, to)
  }

  lemma KeepsBoth(a0: set<Arc>, m0: Cm, a1: set<Arc>, m1: Cm, a2: set<Arc>, m2: Cm)
    requires Keeps(a0, m0, a1, m1) && Keeps(a1, m1, a2, m2)
    ensures Keeps(a0, m0, a2, m2)
  {}

  // ----- patching the arcs

  /** No character is left in a color: each of its arcs is given the subcolor. */
  method RecolorAll(n: Nfa, co: nat, sco: nat)
    requires n.Valid() && co != sco
    requires forall a | a in OfColor(n.arcs, co) :: a.(co := sco) !in n.arcs
    modifies n`outs, n`ins, n`arcs, n`colors
    ensures n.Valid() && n.arcs == old(n.arcs) - OfColor(old(n.arcs), co) + Recolored(OfColor(old(n.arcs), co), sco)
  {
    ghost var arcs := n.arcs;
    ghost var done: set<Arc> := {};
    while ChainOf(n.colors, co) != []
      invariant n.Valid() && done <= OfColor(arcs, co) && n.arcs == arcs - done + Recolored(done, sco)
      decreases OfColor(arcs, co) - done
    {
      n.ColorArcs(co);
      var a := ChainOf(n.colors, co)[0];
      RecoloredHas(done, co, sco, a);
      RecoloredHas(done, co, sco, a.(co := sco));
      assert a.(co := sco).(co := co) == a;
      n.Recolor(a, sco);
      RecolorStep(arcs, done, co, sco, a);
      done := done + {a};
    }
    n.ColorArcs(co);
    AllRecolored(arcs, n.arcs, done, co, sco);
  }

  lemma RecolorStep(arcs: set<Arc>, done: set<Arc>, co: nat, sco: nat, a: Arc)
    requires co != sco && done <= OfColor(arcs, co) && a in OfColor(arcs, co) && a !in done
    requires a.(co := sco) !in arcs
    ensures arcs - done + Recolored(done, sco) - {a} + {a.(co := sco)} == arcs - (done + {a}) + Recolored(done + {a}, sco)
  {
    forall b
      ensures b in Recolored(done + {a}, sco) <==> b in Recolored(done, sco) || b == a.(co := sco)
      ensures b == a ==> b !in Recolored(done, sco)
    {
      RecoloredHas(done, co, sco, b);
      RecoloredHas(done + {a}, co, sco, b);
    }
  }

  lemma AllRecolored(arcs: set<Arc>, arcs': set<Arc>, done: set<Arc>, co: nat, sco: nat)
    requires co != sco && done <= OfColor(arcs, co) && arcs' == arcs - done + Recolored(done, sco)
    requires forall a | a in arcs' :: !(HasColor(a.kind) && a.co == co)
    ensures done == OfColor(arcs, co)
  {
    forall a | a in OfColor(arcs, co)
      ensures a in done
    {
      assert a !in done ==> a in arcs';
    }
  }

  /** Characters are left in a color: beside each of its arcs one of the subcolor is put. */
  method AddParallel(n: Nfa, co: nat, sco: nat)
    requires n.Valid() && co != sco
    modifies n`outs, n`ins, n`arcs, n`colors
    ensures n.Valid() && n.arcs == old(n.arcs) + Recolored(OfColor(old(n.arcs), co), sco)
  {
    n.ColorArcs(co);
    n.States();
    var chain := ChainOf(n.colors, co);
    for i := 0 to |chain|
      invariant n.Valid() && n.arcs == old(n.arcs) + Recolored(Elements(chain[..i]), sco)
    {
      var a := chain[i];
      assert a in old(n.arcs);
      assert chain[..i + 1] == chain[..i] + [a];
      n.NewArc(a.kind, sco, a.from, a.to);
    }
    assert chain[..|chain|] == chain;
    assert Elements(chain) == OfColor(old(n.arcs), co);
  }

  // ----- what the patches keep

  /** p's subcolor sco has been promoted in m'. */
  ghost predicate IsPromoted(m: Cm, m': Cm, p: nat, sco: nat) {
    && IsParentIn(m, p) && m.cd[p].sub == sco && sco != p && sco <= m.max && IsOpenIn(m, sco)
    && m'.rows == m.rows && m'.tab == m.tab && m.max < |m.cd| == |m'.cd| && m'.max <= m.max
    && (forall x: nat | x <= m.max && x != p && x != sco && !m.cd[x].free :: m'.cd[x] == m.cd[x] && x <= m'.max)
    && m'.cd[sco] == m.cd[sco].(sub := NOSUB) && sco <= m'.max
    && (m'.cd[p].free || m'.cd[p].sub == NOSUB)
    && forall x: nat | x <= m.max && m.cd[x].free :: m'.cd[x].free
  }

  lemma RecoloredLinks(arcs: set<Arc>, arcs': set<Arc>, p: nat, sco: nat)
    requires forall a | a in arcs' :: a in arcs || a in Recolored(OfColor(arcs, p), sco)
    requires forall a | a in arcs && a !in arcs' :: a in OfColor(arcs, p)
    ensures SameUncolored(arcs, arcs') && forall a | a in arcs' :: Linking(arcs, a.from, a.to)
  {
    forall a | a in arcs'
      ensures Linking(arcs, a.from, a.to)
    {
      RecoloredHas(OfColor(arcs, p), p, sco, a);
      if a !in arcs {
        assert a.(co := p) in arcs;
      }
    }
  }

  lemma RecoloredKeeps(arcs: set<Arc>, m: Cm, arcs': set<Arc>, m': Cm, lp: nat, rp: nat, p: nat, sco: nat)
    requires TightMap(m) && Counted(m) && Promoting(arcs, m, lp, rp, p) && IsPromoted(m, m', p, sco) && Count(m.rows, p) == 0
    requires arcs' == arcs - OfColor(arcs, p) + Recolored(OfColor(arcs, p), sco)
    ensures Keeps(arcs, m, arcs', m')
  {
    RecoloredLinks(arcs, arcs', p, sco);
    forall c: nat, kind, from, to | InAlphabet(m.tab, m.rows, c) && HasColor(kind)
      ensures DenotesChar(arcs', m', c, kind, from, to) <==> DenotesChar(arcs, m, c, kind, from, to)
    {
      var x := ColorAt(m.tab, m.rows, c);
      CountSome(m.rows, c / m.tab, c % m.tab);
      KeptForth(arcs, m, arcs', m', lp, rp, p, sco, x, kind, from, to);
      KeptBack(arcs, m, arcs', m', lp, rp, p, sco, x, kind, from, to);
    }
  }

  lemma ParallelKeeps(arcs: set<Arc>, m: Cm, arcs': set<Arc>, m': Cm, lp: nat, rp: nat, p: nat, sco: nat)
    requires TightMap(m) && Counted(m) && Promoting(arcs, m, lp, rp, p) && IsPromoted(m, m', p, sco)
    requires arcs' == arcs + Recolored(OfColor(arcs, p), sco)
    ensures Keeps(arcs, m, arcs', m')
  {
    RecoloredLinks(arcs, arcs', p, sco);
    forall c: nat, kind, from, to | InAlphabet(m.tab, m.rows, c) && HasColor(kind)
      ensures DenotesChar(arcs', m', c, kind, from, to) <==> DenotesChar(arcs, m, c, kind, from, to)
    {
      var x := ColorAt(m.tab, m.rows, c);
      KeptForth(arcs, m, arcs', m', lp, rp, p, sco, x, kind, from, to);
      KeptBack(arcs, m, arcs', m', lp, rp, p, sco, x, kind, from, to);
    }
  }

  lemma KeptForth(arcs: set<Arc>, m: Cm, arcs': set<Arc>, m': Cm, lp: nat, rp: nat, p: nat, sco: nat, x: nat, kind: Kind, from: nat, to: nat)
    requires Promoting(arcs, m, lp, rp, p) && IsPromoted(m, m', p, sco) && HasColor(kind)
    requires arcs' == arcs + Recolored(OfColor(arcs, p), sco)
             || (x != p && arcs' == arcs - OfColor(arcs, p) + Recolored(OfColor(arcs, p), sco))
    ensures Denotes(arcs, m.cd, x, kind, from, to) ==> Denotes(arcs', m'.cd, x, kind, from, to)
  {
    if k: nat :| Arc(kind, k, from, to) in arcs && Stands(m.cd, k, x) {
      if k == p {
        RecoloredHas(OfColor(arcs, p), p, sco, Arc(kind, sco, from, to));
        assert x == sco ==> Arc(kind, sco, from, to) in arcs' && Stands(m'.cd, sco, x);
        assert x == p ==> Stands(m'.cd, p, x);
      } else {
        assert Arc(kind, k, from, to) in arcs' && Stands(m'.cd, k, x);
      }
    }
  }

  lemma KeptBack(arcs: set<Arc>, m: Cm, arcs': set<Arc>, m': Cm, lp: nat, rp: nat, p: nat, sco: nat, x: nat, kind: Kind, from: nat, to: nat)
    requires Promoting(arcs, m, lp, rp, p) && IsPromoted(m, m', p, sco) && HasColor(kind)
    requires arcs' == arcs + Recolored(OfColor(arcs, p), sco)
             || arcs' == arcs - OfColor(arcs, p) + Recolored(OfColor(arcs, p), sco)
    ensures Denotes(arcs', m'.cd, x, kind, from, to) ==> Denotes(arcs, m.cd, x, kind, from, to)
  {
    if k: nat :| Arc(kind, k, from, to) in arcs' && Stands(m'.cd, k, x) {
      RecoloredHas(OfColor(arcs, p), p, sco, Arc(kind, k, from, to));
      if Arc(kind, k, from, to) in arcs {
        assert Stands(m.cd, k, x);
      } else {
        assert Arc(kind, p, from, to) in arcs && Stands(m.cd, p, x);
      }
    }
  }

  lemma StillPromoting(arcs: set<Arc>, m: Cm, arcs': set<Arc>, m': Cm, lp: nat, rp: nat, p: nat, sco: nat)
    requires TightMap(m) && Promoting(arcs, m, lp, rp, p) && IsPromoted(m, m', p, sco)
    requires (m'.cd[p].free || p <= m'.max) &&
      (arcs' == arcs - OfColor(arcs, p) + Recolored(OfColor(arcs, p), sco)
       || (!m'.cd[p].free && arcs' == arcs + Recolored(OfColor(arcs, p), sco)))
    ensures Promoting(arcs', m', lp, rp, p + 1)
  {
    LoosenMap(m);
    forall a | a in arcs' && HasColor(a.kind)
      ensures a.co <= m'.max && !m'.cd[a.co].free
      ensures IsOpenIn(m', a.co) ==> a == Arc(PLAIN, a.co, lp, rp)
    {
      RecoloredHas(OfColor(arcs, p), p, sco, a);
      if a in arcs && a.co != p && a.co != sco {
        assert IsOpenIn(m', a.co) ==> IsOpenIn(m, a.co);
      }
    }
    forall s: nat | IsOpenIn(m', s)
      ensures m'.cd[s].nchrs > 0
    {
      assert IsOpenIn(m, s);
    }
    forall q: nat | IsParentIn(m', q)
      ensures Arc(PLAIN, q, lp, rp) !in arcs' && q > p
    {
      assert q != p && q != sco && IsParentIn(m, q);
      RecoloredHas(OfColor(arcs, p), p, sco, Arc(PLAIN, q, lp, rp));
    }
  }

  lemma NoClash(arcs: set<Arc>, m: Cm, lp: nat, rp: nat, co: nat, sco: nat)
    requires Promoting(arcs, m, lp, rp, co) && IsParentIn(m, co) && IsOpenIn(m, sco)
    ensures forall a | a in OfColor(arcs, co) :: a.(co := sco) !in arcs
  {
    forall a | a in OfColor(arcs, co)
      ensures a.(co := sco) !in arcs
    {
      assert a.(co := sco) == Arc(PLAIN, sco, lp, rp) ==> a == Arc(PLAIN, co, lp, rp);
    }
  }

  /** After `freecolor`, or without it for WHITE. */
  lemma PromotedAs(m: Cm, m1: Cm, m': Cm, co: nat, sco: nat)
    requires m.max < |m.cd| && IsParentIn(m, co) && IsOpenIn(m, sco) && m.cd[co].sub == sco && sco != co && m1 == Promoted(m, co, sco)
    requires if co == WHITE then m' == m1 else Freed(m1, m', co)
    ensures IsPromoted(m, m', co, sco) && (m'.cd[co].free || co <= m'.max)
  {}

  /** Promote one color's subcolor. */
  method PromoteColor(n: Nfa, cm: ColorMap, co: nat, ghost lp: nat, ghost rp: nat)
    requires n.Valid() && cm.Valid() && Counted(cm.M()) && Promoting(n.arcs, cm.M(), lp, rp, co) && IsParentIn(cm.M(), co)
    modifies n`outs, n`ins, n`arcs, n`colors, cm
    ensures n.Valid() && cm.Valid() && Counted(cm.M()) && Promoting(n.arcs, cm.M(), lp, rp, co + 1)
    ensures Keeps(old(n.arcs), old(cm.M()), n.arcs, cm.M()) && cm.max <= old(cm.max)
  {
    ghost var arcs, m := n.arcs, cm.M();
    cm.Unseal();
    var sco := cm.Promote(co);
    ghost var m1 := cm.M();
    if cm.cd[co].nchrs == 0 {
      NoClash(arcs, m, lp, rp, co, sco);
      RecolorAll(n, co, sco);
      cm.FreeColor(co);
      PromotedAs(m, m1, cm.M(), co, sco);
      RecoloredKeeps(arcs, m, n.arcs, cm.M(), lp, rp, co, sco);
    } else {
      AddParallel(n, co, sco);
      ParallelKeeps(arcs, m, n.arcs, cm.M(), lp, rp, co, sco);
    }
    StillPromoting(arcs, m, n.arcs, cm.M(), lp, rp, co, sco);
  }

  /** No subcolors are open. */
  ghost predicate Settled(n: Nfa, cm: ColorMap)
    reads n, cm
  {
    && n.Valid() && cm.Valid() && Counted(cm.M()) && ArcsUsed(n.arcs, cm.M())
    && forall co: nat | co <= cm.max && co < |cm.cd| && !cm.cd[co].free :: cm.cd[co].sub == NOSUB
  }

  lemma BracketPromoting(arcs: set<Arc>, m: Cm, lp: nat, rp: nat)
    requires Bracketing(arcs, m, lp, rp)
    ensures Promoting(arcs, m, lp, rp, 0) && Keeps(arcs, m, arcs, m)
  {}

  lemma AllPromoted(n: Nfa, cm: ColorMap, lp: nat, rp: nat)
    requires n.Valid() && cm.Valid() && Counted(cm.M()) && Promoting(n.arcs, cm.M(), lp, rp, cm.max + 1)
    ensures Settled(n, cm)
  {
    cm.Unseal();
    LoosenMap(cm.M());
    forall co: nat | co <= cm.max && co < |cm.cd| && !cm.cd[co].free
      ensures cm.cd[co].sub == NOSUB
    {
      assert !IsParentIn(cm.M(), co);
      if IsOpen(cm.cd, co) {
        assert HasParent(cm.cd, cm.max, co);
        var p: nat :| p <= cm.max && IsParent(cm.cd, p) && cm.cd[p].sub == co;
        assert IsParentIn(cm.M(), p);
      }
    }
  }

  /** `okcolors`: closes all subcolors. */
  method OkColors(n: Nfa, cm: ColorMap, ghost lp: nat, ghost rp: nat)
    requires Reading(n, cm, lp, rp)
    modifies n`outs, n`ins, n`arcs, n`colors, cm
    ensures Settled(n, cm) && Keeps(old(n.arcs), old(cm.M()), n.arcs, cm.M())
  {
    BracketPromoting(n.arcs, cm.M(), lp, rp);
    var end := cm.max;
    var co := 0;
    while co <= end
      invariant n.Valid() && cm.Valid() && Counted(cm.M()) && Promoting(n.arcs, cm.M(), lp, rp, co) && co <= end + 1
      invariant Keeps(old(n.arcs), old(cm.M()), n.arcs, cm.M()) && cm.max <= end
    {
      ghost var arcs, m := n.arcs, cm.M();
      if co < |cm.cd| && co <= cm.max && !cm.cd[co].free && cm.cd[co].sub != NOSUB && cm.cd[co].sub != co {
        PromoteColor(n, cm, co, lp, rp);
        KeepsBoth(old(n.arcs), old(cm.M()), arcs, m, n.arcs, cm.M());
      }
      co := co + 1;
    }
    AllPromoted(n, cm, lp, rp);
  }

  // ----- bracket expressions

  /** One item of a bracket expression: characters, and ranges of them, empty ones included. */
  datatype Item = Item(chrs: seq<nat>, ranges: seq<(nat, nat)>)

  ghost predicate ItemHas(item: Item, c: nat) {
    c in item.chrs || exists r :: r in item.ranges && Within(c, r.0, r.1)
  }

  ghost predicate ItemsHave(items: seq<Item>, c: nat) {
    exists k :: 0 <= k < |items| && ItemHas(items[k], c)
  }

  ghost function Listed(items: seq<Item>): iset<nat> {
    iset c: nat | ItemsHave(items, c)
  }

  /** Items list what each of them does: its characters, and those from the first to the last of its ranges. */
  lemma ListedMeans(items: seq<Item>, more: seq<Item>, chrs: seq<nat>, from: nat, to: nat)
    ensures Listed(items + more) == Listed(items) + Listed(more) && Listed([]) == iset{}
    ensures forall c: nat :: c in Listed([Item(chrs, [])]) <==> c in chrs
    ensures forall c: nat :: c in Listed([Item([], [(from, to)])]) <==> from <= c <= to
  {
    var all := items + more;
    forall c: nat
      ensures ItemsHave(all, c) <==> ItemsHave(items, c) || ItemsHave(more, c)
    {
      if k :| 0 <= k < |items| && ItemHas(items[k], c) {
        assert ItemHas(all[k], c);
      }
      if k :| 0 <= k < |more| && ItemHas(more[k], c) {
        assert all[|items| + k] == more[k];
      }
    }
    forall c: nat
      ensures c in Listed([Item(chrs, [])]) <==> c in chrs
      ensures c in Listed([Item([], [(from, to)])]) <==> from <= c <= to
    {
      assert [Item(chrs, [])][0] == Item(chrs, []);
      assert [Item([], [(from, to)])][0] == Item([], [(from, to)]) && (from, to) in [(from, to)];
      assert ItemHas(Item([], [(from, to)]), c) <==> Within(c, from, to);
      assert ItemHas(Item(chrs, []), c) <==> c in chrs;
    }
  }

  ghost function InItem(item: Item): iset<nat> {
    iset c: nat | ItemHas(item, c)
  }

  ghost predicate ItemIn(cm: ColorMap, item: Item)
    reads cm
  {
    (forall c | c in item.chrs :: cm.In(c)) && forall r | r in item.ranges :: cm.In(r.1)
  }

  ghost function InChrs(chrs: seq<nat>): iset<nat> {
    iset c: nat | c in chrs
  }

  ghost predicate InSome(ranges: seq<(nat, nat)>, c: nat) {
    exists r :: r in ranges && Within(c, r.0, r.1)
  }

  ghost function InRanges(ranges: seq<(nat, nat)>): iset<nat> {
    iset c: nat | InSome(ranges, c)
  }

  method DoChars(n: Nfa, cm: ColorMap, chrs: seq<nat>, lp: nat, rp: nat)
    requires Reading(n, cm, lp, rp) && forall c | c in chrs :: cm.In(c)
    modifies n`outs, n`ins, n`arcs, n`colors, cm
    ensures Reading(n, cm, lp, rp) && Adds(old(n.arcs), old(cm.M()), n.arcs, cm.M(), lp, rp, InChrs(chrs))
  {
    for i := 0 to |chrs|
      invariant Reading(n, cm, lp, rp) && forall c | c in chrs :: cm.In(c)
      invariant Adds(old(n.arcs), old(cm.M()), n.arcs, cm.M(), lp, rp, InChrs(chrs[..i]))
    {
      ghost var arcs, m := n.arcs, cm.M();
      ListChar(n, cm, chrs[i], lp, rp);
      AddsBoth(old(n.arcs), old(cm.M()), arcs, m, n.arcs, cm.M(), lp, rp, InChrs(chrs[..i]), iset{chrs[i]});
      assert chrs[..i + 1] == chrs[..i] + [chrs[i]];
      assert InChrs(chrs[..i]) + iset{chrs[i]} == InChrs(chrs[..i + 1]);
    }
    assert chrs[..|chrs|] == chrs;
  }

  method DoRanges(n: Nfa, cm: ColorMap, ranges: seq<(nat, nat)>, lp: nat, rp: nat)
    requires Reading(n, cm, lp, rp) && forall r | r in ranges :: cm.In(r.1)
    modifies n`outs, n`ins, n`arcs, n`colors, cm
    ensures Reading(n, cm, lp, rp) && Adds(old(n.arcs), old(cm.M()), n.arcs, cm.M(), lp, rp, InRanges(ranges))
  {
    for i := 0 to |ranges|
      invariant Reading(n, cm, lp, rp) && forall r | r in ranges :: cm.In(r.1)
      invariant Adds(old(n.arcs), old(cm.M()), n.arcs, cm.M(), lp, rp, InRanges(ranges[..i]))
    {
      ghost var arcs, m := n.arcs, cm.M();
      var from, to := ranges[i].0, ranges[i].1;
      if from <= to {
        SubRange(n, cm, from, to, lp, rp);
        AddsBoth(old(n.arcs), old(cm.M()), arcs, m, n.arcs, cm.M(), lp, rp, InRanges(ranges[..i]), Span(from, to));
      }
      OneRange(ranges, i);
    }
    assert ranges[..|ranges|] == ranges;
  }

  lemma OneRange(ranges: seq<(nat, nat)>, i: nat)
    requires i < |ranges|
    ensures InRanges(ranges[..i + 1]) == InRanges(ranges[..i]) + Span(ranges[i].0, ranges[i].1)
    ensures ranges[i].0 > ranges[i].1 ==> InRanges(ranges[..i + 1]) == InRanges(ranges[..i])
  {
    assert ranges[..i + 1] == ranges[..i] + [ranges[i]];
    forall c: nat
      ensures InSome(ranges[..i + 1], c) <==> InSome(ranges[..i], c) || Within(c, ranges[i].0, ranges[i].1)
    {
      if InSome(ranges[..i], c) {
        var r :| r in ranges[..i] && Within(c, r.0, r.1);
        assert r in ranges[..i + 1];
      }
      assert ranges[i] in ranges[..i + 1];
    }
  }

  /** `dovec` (and `onechr`): an element is added to what the arcs denote. */
  method DoVec(n: Nfa, cm: ColorMap, item: Item, lp: nat, rp: nat)
    requires Reading(n, cm, lp, rp) && ItemIn(cm, item)
    modifies n`outs, n`ins, n`arcs, n`colors, cm
    ensures Reading(n, cm, lp, rp) && Adds(old(n.arcs), old(cm.M()), n.arcs, cm.M(), lp, rp, InItem(item))
  {
    DoChars(n, cm, item.chrs, lp, rp);
    ghost var arcs, m := n.arcs, cm.M();
    DoRanges(n, cm, item.ranges, lp, rp);
    AddsBoth(old(n.arcs), old(cm.M()), arcs, m, n.arcs, cm.M(), lp, rp, InChrs(item.chrs), InRanges(item.ranges));
    forall c: nat
      ensures c in InChrs(item.chrs) + InRanges(item.ranges) <==> c in InItem(item)
    {
      assert ItemHas(item, c) <==> c in item.chrs || InSome(item.ranges, c);
    }
  }

  /** Reading items that add S, then promoting. */
  lemma AddsKeeps(cm: ColorMap, a0: set<Arc>, m0: Cm, a1: set<Arc>, m1: Cm, a2: set<Arc>, m2: Cm, lp: nat, rp: nat, S: iset<nat>)
    requires Adds(a0, m0, a1, m1, lp, rp, S) && Keeps(a1, m1, a2, m2) && TightMap(m1)
    ensures Adds(a0, m0, a2, m2, lp, rp, S)
  {
    LoosenMap(m1);
    forall a | a in a2
      ensures (a.from == lp && a.to == rp) || Linking(a0, a.from, a.to)
    {
      var b :| b in a1 && b.from == a.from && b.to == a.to;
    }
    forall c: nat, kind, from, to | c / Tab(m0) < |m0.rows| && HasColor(kind)
      ensures DenotesChar(a2, m2, c, kind, from, to) <==>
              DenotesChar(a0, m0, c, kind, from, to) || (c in S && kind == PLAIN && from == lp && to == rp)
    {
      assert InAlphabet(m1.tab, m1.rows, c);
    }
  }

  ghost predicate Unjoined(n: Nfa, lp: nat, rp: nat)
    reads n
  {
    forall a | a in n.arcs && a.kind == PLAIN :: a.from != lp || a.to != rp
  }

  /** `bracket`: a bracket expression between states that no color joins yet denotes exactly the characters listed,
      and everything else what it did. */
  method Bracket(n: Nfa, cm: ColorMap, lp: nat, rp: nat, items: seq<Item>)
    requires Settled(n, cm) && lp in n.states && rp in n.states && Unjoined(n, lp, rp)
    requires forall k | 0 <= k < |items| :: ItemIn(cm, items[k])
    modifies n`outs, n`ins, n`arcs, n`colors, cm
    ensures Settled(n, cm) && Adds(old(n.arcs), old(cm.M()), n.arcs, cm.M(), lp, rp, Listed(items))
  {
    for i := 0 to |items|
      invariant Reading(n, cm, lp, rp) && forall k | 0 <= k < |items| :: ItemIn(cm, items[k])
      invariant Adds(old(n.arcs), old(cm.M()), n.arcs, cm.M(), lp, rp, Listed(items[..i]))
    {
      ghost var arcs, m := n.arcs, cm.M();
      DoVec(n, cm, items[i], lp, rp);
      AddsBoth(old(n.arcs), old(cm.M()), arcs, m, n.arcs, cm.M(), lp, rp, Listed(items[..i]), InItem(items[i]));
      OneItem(items, i);
    }
    assert items[..|items|] == items;
    ghost var arcs, m := n.arcs, cm.M();
    cm.Unseal();
    OkColors(n, cm, lp, rp);
    AddsKeeps(cm, old(n.arcs), old(cm.M()), arcs, m, n.arcs, cm.M(), lp, rp, Listed(items));
  }

  lemma OneItem(items: seq<Item>, i: nat)
    requires i < |items|
    ensures Listed(items[..i + 1]) == Listed(items[..i]) + InItem(items[i])
  {
    var more, less := items[..i + 1], items[..i];
    assert more == less + [items[i]];
    forall c: nat
      ensures ItemsHave(more, c) <==> ItemsHave(less, c) || ItemHas(items[i], c)
    {
      if ItemsHave(less, c) {
        var k :| 0 <= k < |less| && ItemHas(less[k], c);
        assert ItemHas(more[k], c);
      }
      assert more[i] == items[i];
    }
  }

  // ----- complements

  /** `findarc` on a PLAIN arc. */
  method HasPlain(n: Nfa, of: nat, co: nat) returns (yes: bool)
    requires n.Valid() && of in n.states
    ensures yes <==> exists to: nat :: Arc(PLAIN, co, of, to) in n.arcs
  {
    n.Outs(of);
    var chain := n.outs[of];
    for i := 0 to |chain|
      invariant forall k | 0 <= k < i :: chain[k].kind != PLAIN || chain[k].co != co
    {
      if chain[i].kind == PLAIN && chain[i].co == co {
        assert Arc(PLAIN, co, of, chain[i].to) in n.arcs;
        return true;
      }
    }
    forall to: nat
      ensures Arc(PLAIN, co, of, to) !in n.arcs
    {
      assert Arc(PLAIN, co, of, to) in n.arcs ==> Arc(PLAIN, co, of, to) in chain;
    }
    yes := false;
  }

  /** The color is on some arc out of `of`. */
  ghost predicate Leaves(arcs: set<Arc>, of: nat, co: nat) {
    exists to: nat :: Arc(PLAIN, co, of, to) in arcs
  }

  /** Arcs for the colors below `end` that `of` is not left by. */
  ghost predicate Complementing(arcs: set<Arc>, m: Cm, of: nat, from: nat, to: nat, end: nat, arcs': set<Arc>) {
    && arcs <= arcs'
    && (forall a | a in arcs' && a !in arcs :: a.kind == PLAIN && a.from == from && a.to == to
          && a.co < end && IsReal(m.cd, m.max, a.co) && !Leaves(arcs, of, a.co))
    && forall co: nat | co < end && IsReal(m.cd, m.max, co) && !Leaves(arcs, of, co) :: Arc(PLAIN, co, from, to) in arcs'
  }

  /** `colorcomplement`, for PLAIN arcs. */
  method ColorComplement(n: Nfa, cm: ColorMap, of: nat, from: nat, to: nat)
    requires Settled(n, cm) && of in n.states && from in n.states && to in n.states && of != from
    modifies n`outs, n`ins, n`arcs, n`colors
    ensures Settled(n, cm) && Complementing(old(n.arcs), cm.M(), of, from, to, cm.max + 1, n.arcs)
  {
    var co := 0;
    while co <= cm.max
      invariant Settled(n, cm) && co <= cm.max + 1
      invariant Complementing(old(n.arcs), cm.M(), of, from, to, co, n.arcs)
    {
      ghost var arcs := n.arcs;
      if !cm.cd[co].free && !cm.cd[co].pseudo {
        var yes := HasPlain(n, of, co);
        SameLeaves(old(n.arcs), cm.M(), of, from, to, co, arcs);
        if !yes {
          n.NewArc(PLAIN, co, from, to);
        }
      }
      co := co + 1;
    }
  }

  lemma SameLeaves(arcs: set<Arc>, m: Cm, of: nat, from: nat, to: nat, co: nat, arcs': set<Arc>)
    requires of != from && Complementing(arcs, m, of, from, to, co, arcs')
    ensures Leaves(arcs', of, co) <==> Leaves(arcs, of, co)
  {}

  /** No color has an open subcolor. */
  ghost predicate Flat(m: Cm) {
    forall co: nat | co <= m.max && co < |m.cd| && !m.cd[co].free :: m.cd[co].sub == NOSUB
  }

  /** Without open subcolors, arcs denote just their own color. */
  lemma PlainDenotes(arcs: set<Arc>, m: Cm, x: nat, kind: Kind, from: nat, to: nat)
    requires Flat(m) && ArcsUsed(arcs, m) && HasColor(kind)
    ensures Denotes(arcs, m.cd, x, kind, from, to) <==> Arc(kind, x, from, to) in arcs
  {
    if k: nat :| Arc(kind, k, from, to) in arcs && Stands(m.cd, k, x) {
      assert Arc(kind, k, from, to).co <= m.max;
    }
    assert Stands(m.cd, x, x);
  }

  /** What was denoted by arcs between the states there were still is, and the characters not in S are denoted between
      lp and rp. */
  ghost predicate AddsOthers(arcs: set<Arc>, m: Cm, states: seq<nat>, arcs': set<Arc>, m': Cm, lp: nat, rp: nat, S: iset<nat>) {
    && m'.tab == m.tab && |m'.rows| == |m.rows| && SameUncolored(arcs, arcs')
    && forall c: nat, kind, from, to | c / Tab(m) < |m.rows| && HasColor(kind) && from in states && to in states ::
         DenotesChar(arcs', m', c, kind, from, to) <==>
         DenotesChar(arcs, m, c, kind, from, to) || (c !in S && kind == PLAIN && from == lp && to == rp)
  }

  /** Nothing touches z. */
  ghost predicate Apart(arcs: set<Arc>, z: nat) {
    forall a | a in arcs :: a.from != z && a.to != z
  }

  /** The bracket expression between left and right, new states, and its complement between lp and rp. */
  ghost predicate Complemented(a0: set<Arc>, m0: Cm, a1: set<Arc>, m: Cm, a2: set<Arc>, left: nat, right: nat, lp: nat, rp: nat, S: iset<nat>) {
    && Apart(a0, left) && Apart(a0, right) && left != right && lp != left && lp != right && rp != left && rp != right
    && Adds(a0, m0, a1, m, left, right, S) && TightMap(m) && Flat(m) && ArcsUsed(a1, m) && ArcsUsed(a2, m)
    && Complementing(a1, m, left, lp, rp, m.max + 1, a2)
  }

  /** A character is listed exactly if its color leaves `left`. */
  lemma LeftHas(a0: set<Arc>, m0: Cm, a1: set<Arc>, m: Cm, a2: set<Arc>, left: nat, right: nat, lp: nat, rp: nat, S: iset<nat>, c: nat)
    requires Complemented(a0, m0, a1, m, a2, left, right, lp, rp, S) && c / Tab(m) < |m.rows|
    ensures Leaves(a1, left, ColorAt(m.tab, m.rows, c)) <==> c in S
  {
    var x := ColorAt(m.tab, m.rows, c);
    PlainDenotes(a1, m, x, PLAIN, left, right);
    assert !DenotesChar(a0, m0, c, PLAIN, left, right);
    assert DenotesChar(a1, m, c, PLAIN, left, right) <==> c in S;
    if to: nat :| Arc(PLAIN, x, left, to) in a1 {
      assert Arc(PLAIN, x, left, to).from == left;
      assert to != right ==> Linking(a0, left, to);
    }
  }

  lemma ComplementedAs(a0: set<Arc>, m0: Cm, a1: set<Arc>, m: Cm, a2: set<Arc>, left: nat, right: nat, lp: nat, rp: nat,
                       S: iset<nat>, states: seq<nat>)
    requires Complemented(a0, m0, a1, m, a2, left, right, lp, rp, S) && left !in states && right !in states
    ensures AddsOthers(a0, m0, states, a2, m, lp, rp, S)
  {
    forall c: nat, kind, from, to | c / Tab(m) < |m.rows| && HasColor(kind) && from in states && to in states
      ensures DenotesChar(a2, m, c, kind, from, to) <==>
              DenotesChar(a0, m0, c, kind, from, to) || (c !in S && kind == PLAIN && from == lp && to == rp)
    {
      var x := ColorAt(m.tab, m.rows, c);
      PlainDenotes(a1, m, x, kind, from, to);
      PlainDenotes(a2, m, x, kind, from, to);
      LeftHas(a0, m0, a1, m, a2, left, right, lp, rp, S, c);
      RealAt(m, c);
      assert DenotesChar(a1, m, c, kind, from, to) <==> DenotesChar(a0, m0, c, kind, from, to);
    }
  }

  lemma RealAt(m: Cm, c: nat)
    requires TightMap(m) && c / Tab(m) < |m.rows|
    ensures IsReal(m.cd, m.max, ColorAt(m.tab, m.rows, c))
  {
    LoosenMap(m);
    assert IsReal(m.cd, m.max, m.rows[c / m.tab][c % m.tab]);
  }

  /** Once left is gone, nothing touches right. */
  lemma Untouched(a0: set<Arc>, m0: Cm, a1: set<Arc>, m: Cm, a2: set<Arc>, left: nat, right: nat, lp: nat, rp: nat, S: iset<nat>)
    requires Complemented(a0, m0, a1, m, a2, left, right, lp, rp, S)
    ensures Apart(a2 - Into(a2, left) - OutOf(a2, left), right)
  {
    forall a | a in a2 && a.from != left && a.to != left
      ensures a.from != right && a.to != right
    {
      if a in a1 {
        assert Linking(a0, a.from, a.to);
      }
    }
  }

  /** Dropping a state that is not among them makes no difference to the states there were. */
  lemma Dropped(a0: set<Arc>, m0: Cm, a2: set<Arc>, m: Cm, left: nat, lp: nat, rp: nat, S: iset<nat>, states: seq<nat>)
    requires AddsOthers(a0, m0, states, a2, m, lp, rp, S) && left !in states && Apart(a0, left) && Flat(m) && ArcsUsed(a2, m)
    ensures AddsOthers(a0, m0, states, a2 - Into(a2, left) - OutOf(a2, left), m, lp, rp, S)
  {
    var a3 := a2 - Into(a2, left) - OutOf(a2, left);
    forall c: nat, kind, from, to | c / Tab(m) < |m.rows| && HasColor(kind) && from in states && to in states
      ensures DenotesChar(a3, m, c, kind, from, to) <==> DenotesChar(a2, m, c, kind, from, to)
    {
      PlainDenotes(a2, m, ColorAt(m.tab, m.rows, c), kind, from, to);
      PlainDenotes(a3, m, ColorAt(m.tab, m.rows, c), kind, from, to);
    }
  }

  /** Get rid of the two dummy states. */
  method Discard(n: Nfa, left: nat, right: nat)
    requires n.Valid() && left in n.states && right in n.states && left != right && !n.Flag(left) && !n.Flag(right)
    requires Apart(n.arcs - Into(n.arcs, left) - OutOf(n.arcs, left), right)
    modifies n`states, n`outs, n`ins, n`tmp, n`arcs, n`colors
    ensures n.Valid() && n.arcs == old(n.arcs) - Into(old(n.arcs), left) - OutOf(old(n.arcs), left)
    ensures forall x :: x in n.states <==> x in old(n.states) && x != left && x != right
  {
    n.DropState(left);
    n.FreeState(right);
  }

  /** The part of `cbracket` that builds: the bracket expression between two new states, and its complement. */
  method Complement(n: Nfa, cm: ColorMap, left: nat, right: nat, lp: nat, rp: nat, items: seq<Item>, ghost states: seq<nat>)
    requires Settled(n, cm) && lp in n.states && rp in n.states && left in n.states && right in n.states && left != right
    requires lp != left && lp != right && rp != left && rp != right && Apart(n.arcs, left) && Apart(n.arcs, right)
    requires left !in states && right !in states && forall k | 0 <= k < |items| :: ItemIn(cm, items[k])
    requires !n.Flag(left) && !n.Flag(right)
    modifies n`outs, n`ins, n`arcs, n`colors, cm
    ensures Settled(n, cm) && AddsOthers(old(n.arcs), old(cm.M()), states, n.arcs, cm.M(), lp, rp, Listed(items))
    ensures Apart(n.arcs - Into(n.arcs, left) - OutOf(n.arcs, left), right) && Flat(cm.M()) && ArcsUsed(n.arcs, cm.M())
  {
    ghost var a0, m0 := n.arcs, cm.M();
    Bracket(n, cm, left, right, items);
    ghost var a1 := n.arcs;
    ColorComplement(n, cm, left, lp, rp);
    ghost var a2, m, S := n.arcs, cm.M(), Listed(items);
    cm.Unseal();
    ComplementedAs(a0, m0, a1, m, a2, left, right, lp, rp, S, states);
    Untouched(a0, m0, a1, m, a2, left, right, lp, rp, S);
  }

  /** `cbracket`, without REG_NLSTOP: exactly the characters not listed. */
  method CBracket(n: Nfa, cm: ColorMap, lp: nat, rp: nat, items: seq<Item>)
    requires Settled(n, cm) && lp in n.states && rp in n.states
    requires forall k | 0 <= k < |items| :: ItemIn(cm, items[k])
    modifies n, cm
    ensures Settled(n, cm)
    ensures AddsOthers(old(n.arcs), old(cm.M()), old(n.states), n.arcs, cm.M(), lp, rp, Listed(items))
    ensures forall x :: x in n.states <==> x in old(n.states)
  {
    var left := n.NewState();
    assert Unused(n.G(), left);
    var right := n.NewState();
    ghost var a0, m0 := n.arcs, cm.M();
    Complement(n, cm, left, right, lp, rp, items, old(n.states));
    ghost var a2, m := n.arcs, cm.M();
    Discard(n, left, right);
    Dropped(a0, m0, a2, m, left, lp, rp, Listed(items), old(n.states));
  }
}
