/** Bracket expressions (regcomp.c, regc_color.c): characters, ranges and whole blocks are moved to new colors, whose
    arcs then denote exactly what was listed. */
module ColorBrackets {
  import opened Nets
  import opened Nfas
  import opened Colors
  import opened ColorSteps
  import opened ColorMaps
  import opened ColorArcs

  /** A bracket expression between lp and rp is being read. */
  ghost predicate Reading(n: Nfa, cm: ColorMap, lp: nat, rp: nat)
    reads n, cm
  {
    && n.Valid() && cm.Valid() && Counted(cm.M()) && lp in n.states && rp in n.states
    && Bracketing(n.arcs, cm.M(), lp, rp)
  }

  /** What was denoted still is, together with the characters in S by the bracket expression. */
  ghost predicate Adds(arcs: set<Arc>, m: Cm, arcs': set<Arc>, m': Cm, lp: nat, rp: nat, S: iset<nat>) {
    && m'.tab == m.tab && |m'.rows| == |m.rows| && SameUncolored(arcs, arcs')
    && (forall a | a in arcs' :: (a.from == lp && a.to == rp) || Linking(arcs, a.from, a.to))
    && forall c: nat, kind, from, to | c / Tab(m) < |m.rows| && HasColor(kind) ::
         DenotesChar(arcs', m', c, kind, from, to) <==>
         DenotesChar(arcs, m, c, kind, from, to) || (c in S && kind == PLAIN && from == lp && to == rp)
  }

  /** Arcs without a color are left alone. */
  ghost predicate SameUncolored(arcs: set<Arc>, arcs': set<Arc>) {
    forall a: Arc | !HasColor(a.kind) :: a in arcs' <==> a in arcs
  }

  /** Some arc leads from one state to the other. */
  ghost predicate Linking(arcs: set<Arc>, from: nat, to: nat) {
    exists a :: a in arcs && a.from == from && a.to == to
  }

  function Tab(m: Cm): nat {
    if m.tab == 0 then 1 else m.tab
  }

  ghost predicate DenotesChar(arcs: set<Arc>, m: Cm, c: nat, kind: Kind, from: nat, to: nat) {
    Denotes(arcs, m.cd, ColorAt(m.tab, m.rows, c), kind, from, to)
  }

  lemma AddsBoth(a0: set<Arc>, m0: Cm, a1: set<Arc>, m1: Cm, a2: set<Arc>, m2: Cm, lp: nat, rp: nat, S: iset<nat>, T: iset<nat>)
    requires Adds(a0, m0, a1, m1, lp, rp, S) && Adds(a1, m1, a2, m2, lp, rp, T)
    ensures Adds(a0, m0, a2, m2, lp, rp, S + T)
  {}

  /** Some characters of color co, among them the only one if there is only one, have moved to sco. */
  lemma MovedAdds(arcs: set<Arc>, m: Cm, arcs': set<Arc>, m': Cm, lp: nat, rp: nat, co: nat, sco: nat, S: iset<nat>)
    requires Listing(arcs, m, arcs', m', lp, rp, co, sco) && m'.tab == m.tab && |m'.rows| == |m.rows|
    requires forall c: nat | c in S :: InAlphabet(m.tab, m.rows, c) && ColorAt(m.tab, m.rows, c) == co && ColorAt(m'.tab, m'.rows, c) == sco
    requires forall c: nat | c !in S && c / Tab(m) < |m.rows| :: ColorAt(m'.tab, m'.rows, c) == ColorAt(m.tab, m.rows, c)
    requires exists c: nat :: c in S
    ensures Adds(arcs, m, arcs', m', lp, rp, S)
  {
    forall c: nat, kind, from, to | c / Tab(m) < |m.rows| && HasColor(kind)
      ensures DenotesChar(arcs', m', c, kind, from, to) <==>
              DenotesChar(arcs, m, c, kind, from, to) || (c in S && kind == PLAIN && from == lp && to == rp)
    {
      if c in S {
        ListedSelf(arcs, m, arcs', m', lp, rp, co, sco, kind, from, to);
      } else {
        var d: nat :| d in S;
        NotMoved(m, co, d, c);
        ListedOthers(arcs, m, arcs', m', lp, rp, co, sco, ColorAt(m.tab, m.rows, c), kind, from, to);
      }
    }
  }

  /** A character other than d, of color co, is not the single one of that color. */
  lemma NotMoved(m: Cm, co: nat, d: nat, c: nat)
    requires TightMap(m) && Counted(m) && InAlphabet(m.tab, m.rows, d) && ColorAt(m.tab, m.rows, d) == co && c != d
    requires c / Tab(m) < |m.rows|
    ensures IsReal(m.cd, m.max, ColorAt(m.tab, m.rows, c)) && (Single(m, co) ==> ColorAt(m.tab, m.rows, c) != co)
  {
    LoosenMap(m);
    assert IsReal(m.cd, m.max, m.rows[c / m.tab][c % m.tab]);
    assert IsReal(m.cd, m.max, m.rows[d / m.tab][d % m.tab]);
    if Single(m, co) && ColorAt(m.tab, m.rows, c) == co {
      CountOne(m.rows, d / m.tab, d % m.tab, c / m.tab, c % m.tab);
      SamePlace(m.tab, c, d);
    }
  }

  lemma PutColors(m: Cm, rows: Rows, c: nat, sco: nat)
    requires m.tab > 0 && InAlphabet(m.tab, m.rows, c) && rows == Put(m.rows, c / m.tab, c % m.tab, sco)
    ensures |rows| == |m.rows| && ColorAt(m.tab, rows, c) == sco
    ensures forall d: nat | d != c && d / m.tab < |m.rows| :: ColorAt(m.tab, rows, d) == ColorAt(m.tab, m.rows, d)
  {
    forall d: nat | d != c && d / m.tab < |m.rows|
      ensures ColorAt(m.tab, rows, d) == ColorAt(m.tab, m.rows, d)
    {
      OtherPlace(m.tab, c, d);
      OtherCell(m.rows, c / m.tab, c % m.tab, d / m.tab, d % m.tab, sco);
    }
  }

  /** Two characters are in different blocks or at different places. */
  lemma OtherPlace(tab: nat, c: nat, d: nat)
    requires tab > 0 && d != c
    ensures d / tab != c / tab || d % tab != c % tab
  {
    if d / tab == c / tab && d % tab == c % tab {
      SamePlace(tab, c, d);
    }
  }

  lemma OtherCell(rows: Rows, b: nat, i: nat, e: nat, j: nat, v: nat)
    requires b < |rows| && e < |rows| && (e != b || j != i)
    ensures |Put(rows, b, i, v)| == |rows| && |Put(rows, b, i, v)[e]| == |rows[e]|
    ensures j < |rows[e]| ==> Put(rows, b, i, v)[e][j] == rows[e][j]
  {}

  lemma SamePlace(tab: nat, c: nat, d: nat)
    requires tab > 0 && c / tab == d / tab && c % tab == d % tab
    ensures c == d
  {
    assert c == tab * (c / tab) + c % tab;
    assert d == tab * (d / tab) + d % tab;
  }

  /** `newarc` with `subcolor`: list one character. */
  method ListChar(n: Nfa, cm: ColorMap, c: nat, lp: nat, rp: nat)
    requires Reading(n, cm, lp, rp) && cm.In(c)
    modifies n`outs, n`ins, n`arcs, n`colors, cm
    ensures Reading(n, cm, lp, rp)
    ensures Adds(old(n.arcs), old(cm.M()), n.arcs, cm.M(), lp, rp, iset{c})
  {
    ghost var arcs, m := n.arcs, cm.M();
    cm.Reality(c);
    cm.Unseal();
    ghost var co := cm.Color(c);
    var sco := cm.SubColor(c);
    n.NewArc(PLAIN, sco, lp, rp);
    ghost var m' := cm.M();
    PutColors(m, m'.rows, c, sco);
    MovedAdds(arcs, m, n.arcs, m', lp, rp, co, sco, iset{c});
    CharBracketing(arcs, m, n.arcs, m', lp, rp, c, co, sco);
  }

  lemma CharBracketing(arcs: set<Arc>, m: Cm, arcs': set<Arc>, m': Cm, lp: nat, rp: nat, c: nat, co: nat, sco: nat)
    requires Listing(arcs, m, arcs', m', lp, rp, co, sco) && Counted(m') && IsReal(m'.cd, m'.max, sco) && m'.tab > 0
    requires InAlphabet(m'.tab, m'.rows, c) && ColorAt(m'.tab, m'.rows, c) == sco
    ensures Bracketing(arcs', m', lp, rp)
  {
    CountSome(m'.rows, c / m'.tab, c % m'.tab);
    ListedBracketing(arcs, m, arcs', m', lp, rp, co, sco);
  }

  // ----- whole blocks

  /** The characters of places i to j of block b. */
  ghost function Places(tab: nat, b: nat, i: nat, j: nat): iset<nat>
    requires tab > 0
  {
    iset c: nat | c / tab == b && i <= c % tab < j
  }

  lemma PlaceOf(tab: nat, b: nat, i: nat) returns (c: nat)
    requires i < tab
    ensures c / tab == b && c % tab == i
  {
    c := tab * b + i;
    DivIs(tab, b, i);
  }

  lemma DivIs(tab: nat, b: nat, i: nat)
    requires i < tab
    ensures (tab * b + i) / tab == b && (tab * b + i) % tab == i
  {
    var c := tab * b + i;
    Unique(tab, c / tab, c % tab, b, i);
  }

  lemma Unique(tab: nat, q: nat, r: nat, b: nat, i: nat)
    requires r < tab && i < tab && tab * q + r == tab * b + i
    ensures q == b && r == i
  {
    if q < b {
      MulStep(tab, q, b);
    } else if b < q {
      MulStep(tab, b, q);
    }
  }

  lemma {:induction false} MulStep(tab: nat, x: nat, y: nat)
    requires x < y
    ensures tab * x + tab <= tab * y
    decreases y
  {
    assert tab * y == tab * (y - 1) + tab;
    if x < y - 1 {
      MulStep(tab, x, y - 1);
    }
  }

  /** A run of one color of block b has moved to its subcolor: m1 is the map after `newsub`. */
  ghost predicate RunMoved(m: Cm, m1: Cm, m': Cm, b: nat, i: nat, j: nat, co: nat, sco: nat) {
    && TightMap(m) && Counted(m) && b < |m.rows| && i < j <= m.tab == |m.rows[b]| && IsReal(m.cd, m.max, co)
    && (forall k | i <= k < j :: k < |m.rows[b]| && m.rows[b][k] == co)
    && Subcolored(m, m1, co, sco) && m1.rows == m.rows && m1.tab == m.tab && Counted(m1)
    && m'.rows == m.rows[b := RunTo(m.rows[b], i, j, sco)] && m'.tab == m.tab && m'.max == m1.max && |m'.cd| == |m1.cd|
    && co < |m1.cd| && sco < |m1.cd| && IsReal(m'.cd, m'.max, sco)
    && forall x | 0 <= x < |m1.cd| ::
         m'.cd[x] == m1.cd[x].(block := m'.cd[x].block, nchrs := Shifted(m1.cd, co, sco, j - i)[x].nchrs)
  }

  lemma RunListed(arcs: set<Arc>, m: Cm, m1: Cm, arcs': set<Arc>, m': Cm, lp: nat, rp: nat, b: nat, i: nat, j: nat, co: nat, sco: nat)
    requires RunMoved(m, m1, m', b, i, j, co, sco) && Bracketing(arcs, m, lp, rp) && arcs' == arcs + {Arc(PLAIN, sco, lp, rp)}
    ensures Adds(arcs, m, arcs', m', lp, rp, Places(m.tab, b, i, j)) && Bracketing(arcs', m', lp, rp) && Counted(m')
  {
    LoosenMap(m);
    RunCounted(m1, m', b, i, j, co, sco);
    SubcoloredOn(m, m1, m', co, sco);
    var c := PlaceOf(m.tab, b, i);
    assert c in Places(m.tab, b, i, j);
    RunAdds(arcs, m, arcs', m', lp, rp, b, i, j, co, sco);
    CharBracketing(arcs, m, arcs', m', lp, rp, c, co, sco);
  }

  /** The color of a character after a run of its block has changed. */
  lemma RunColor(tab: nat, rows: Rows, rows': Rows, b: nat, i: nat, j: nat, co: nat, sco: nat, c: nat)
    requires b < |rows| && i < j <= tab == |rows[b]| && rows' == rows[b := RunTo(rows[b], i, j, sco)]
    requires forall k | i <= k < j :: k < |rows[b]| && rows[b][k] == co
    ensures c in Places(tab, b, i, j) ==> InAlphabet(tab, rows, c) && ColorAt(tab, rows, c) == co && ColorAt(tab, rows', c) == sco
    ensures c !in Places(tab, b, i, j) && c / tab < |rows| ==> ColorAt(tab, rows', c) == ColorAt(tab, rows, c)
  {
    var e, k := c / tab, c % tab;
    assert rows'[b] == RunTo(rows[b], i, j, sco);
    if e == b {
      assert rows'[e][k] == if i <= k < j then sco else rows[e][k];
    }
  }

  lemma RunAdds(arcs: set<Arc>, m: Cm, arcs': set<Arc>, m': Cm, lp: nat, rp: nat, b: nat, i: nat, j: nat, co: nat, sco: nat)
    requires Listing(arcs, m, arcs', m', lp, rp, co, sco) && b < |m.rows| && i < j <= m.tab == |m.rows[b]| && m'.tab == m.tab
    requires forall k | i <= k < j :: k < |m.rows[b]| && m.rows[b][k] == co
    requires m'.rows == m.rows[b := RunTo(m.rows[b], i, j, sco)]
    ensures Adds(arcs, m, arcs', m', lp, rp, Places(m.tab, b, i, j))
  {
    var S := Places(m.tab, b, i, j);
    forall c: nat
      ensures c in S ==> InAlphabet(m.tab, m.rows, c) && ColorAt(m.tab, m.rows, c) == co && ColorAt(m'.tab, m'.rows, c) == sco
      ensures c !in S && c / Tab(m) < |m.rows| ==> ColorAt(m'.tab, m'.rows, c) == ColorAt(m.tab, m.rows, c)
    {
      RunColor(m.tab, m.rows, m'.rows, b, i, j, co, sco, c);
    }
    var c := PlaceOf(m.tab, b, i);
    assert c in S;
    MovedAdds(arcs, m, arcs', m', lp, rp, co, sco, S);
  }

  /** A solid block: point to a subcolor's solid block instead. */
  method SubSolid(cm: ColorMap, b: nat) returns (sco: nat, ghost m1: Cm, ghost co: nat)
    requires cm.Valid() && Counted(cm.M()) && b < |cm.tptr| && b < |cm.rows|
    requires cm.rows[b] != [] && cm.rows[b][0] < |cm.cd| && cm.cd[cm.rows[b][0]].block == cm.tptr[b]
    modifies cm
    ensures cm.Valid() && RunMoved(old(cm.M()), m1, cm.M(), b, 0, cm.tab, co, sco)
  {
    ghost var m := cm.M();
    cm.RowIs(b);
    cm.Unseal();
    var color := cm.mem[cm.tptr[b]][0];
    co := color;
    SolidRow(m, b);
    sco := cm.NewSub(color);
    m1 := cm.M();
    cm.PointToSolid(b, sco);
    cm.Shift(color, sco, cm.tab);
    assert RunTo(m.rows[b], 0, m.tab, sco) == seq(m.tab, _ => sco);
  }

  method ListSolid(n: Nfa, cm: ColorMap, b: nat, lp: nat, rp: nat)
    requires Reading(n, cm, lp, rp) && b < |cm.tptr| && b < |cm.rows|
    requires cm.rows[b] != [] && cm.rows[b][0] < |cm.cd| && cm.cd[cm.rows[b][0]].block == cm.tptr[b]
    modifies n`outs, n`ins, n`arcs, n`colors, cm
    ensures Reading(n, cm, lp, rp)
    ensures Adds(old(n.arcs), old(cm.M()), n.arcs, cm.M(), lp, rp, Places(cm.tab, b, 0, cm.tab))
  {
    ghost var arcs, m := n.arcs, cm.M();
    var sco, m1, co := SubSolid(cm, b);
    n.NewArc(PLAIN, sco, lp, rp);
    RunListed(arcs, m, m1, n.arcs, cm.M(), lp, rp, b, 0, m.tab, co, sco);
  }

  lemma StillPrivate(m: Cm, m1: Cm, b: nat)
    requires b < |m.tptr| && Private(m, b, m.tptr[b]) && m1.tptr == m.tptr && m.max < |m.cd|
    requires forall x: nat | x <= m1.max ::
      x < |m1.cd| && (m1.cd[x].block == NIL || (x <= m.max && x < |m.cd| && m1.cd[x].block == m.cd[x].block))
    ensures Private(m1, b, m.tptr[b])
  {}

  /** The subcolor for the color at a place of a mixed block. */
  method SubAt(cm: ColorMap, b: nat, i: nat) returns (color: nat, sco: nat)
    requires cm.Valid() && Counted(cm.M()) && b < |cm.tptr| && i < cm.tab && Private(cm.M(), b, cm.tptr[b])
    modifies cm`cd, cm`max, cm`free, cm`chain
    ensures cm.Valid() && Counted(cm.M()) && cm.Real(color) && cm.Real(sco) && Subcolored(old(cm.M()), cm.M(), color, sco)
    ensures b < |cm.rows| && |cm.rows[b]| == cm.tab && cm.rows[b][i] == color && IsReal(old(cm.cd), old(cm.max), color)
    ensures Private(cm.M(), b, cm.tptr[b])
  {
    ghost var m := cm.M();
    cm.RowIs(b);
    cm.Unseal();
    color := cm.mem[cm.tptr[b]][i];
    sco := cm.NewSub(color);
    StillPrivate(m, cm.M(), b);
    cm.RowIs(b);
  }

  /** A run of one color in a mixed block. */
  method SubRun(cm: ColorMap, b: nat, i: nat) returns (sco: nat, j: nat, ghost m1: Cm, ghost co: nat)
    requires cm.Valid() && Counted(cm.M()) && b < |cm.tptr| && i < cm.tab && Private(cm.M(), b, cm.tptr[b])
    modifies cm
    ensures cm.Valid() && RunMoved(old(cm.M()), m1, cm.M(), b, i, j, co, sco)
    ensures |cm.tptr| == |old(cm.tptr)| && Private(cm.M(), b, cm.tptr[b])
  {
    cm.Unseal();
    var color;
    color, sco := SubAt(cm, b, i);
    co, m1 := color, cm.M();
    j := cm.FillRun(b, i, color, sco);
    cm.Shift(color, sco, j - i);
  }

  method ListRun(n: Nfa, cm: ColorMap, b: nat, i: nat, lp: nat, rp: nat) returns (j: nat)
    requires Reading(n, cm, lp, rp) && b < |cm.tptr| && i < cm.tab && Private(cm.M(), b, cm.tptr[b])
    modifies n`outs, n`ins, n`arcs, n`colors, cm
    ensures Reading(n, cm, lp, rp) && |cm.tptr| == |old(cm.tptr)| && Private(cm.M(), b, cm.tptr[b])
    ensures i < j <= cm.tab && Adds(old(n.arcs), old(cm.M()), n.arcs, cm.M(), lp, rp, Places(cm.tab, b, i, j))
  {
    ghost var arcs, m := n.arcs, cm.M();
    var sco, k, m1, co := SubRun(cm, b, i);
    j := k;
    n.NewArc(PLAIN, sco, lp, rp);
    RunListed(arcs, m, m1, n.arcs, cm.M(), lp, rp, b, i, j, co, sco);
  }

  lemma SolidRow(m: Cm, b: nat)
    requires TightMap(m) && b < |m.tptr| && b < |m.rows| && m.rows[b] != [] && m.rows[b][0] < |m.cd| && m.cd[m.rows[b][0]].block == m.tptr[b]
    ensures IsSolid(m.rows[b], m.rows[b][0])
  {
    LoosenMap(m);
    var co := m.rows[b][0];
    assert IsReal(m.cd, m.max, co) && SolidOk(m.tab, m.cd[co], co, m.mem);
  }

  // ----- ranges

  predicate Within(c: nat, from: int, to: int) {
    from <= c <= to
  }

  ghost function Span(from: int, to: int): iset<nat> {
    iset c: nat | Within(c, from, to)
  }

  /** `subblock`: list one tree block of characters. */
  method SubBlock(n: Nfa, cm: ColorMap, start: nat, lp: nat, rp: nat)
    requires Reading(n, cm, lp, rp) && cm.In(start) && start % cm.tab == 0
    modifies n`outs, n`ins, n`arcs, n`colors, cm
    ensures Reading(n, cm, lp, rp)
    ensures Adds(old(n.arcs), old(cm.M()), n.arcs, cm.M(), lp, rp, Span(start, start + cm.tab - 1))
  {
    var b := start / cm.tab;
    BlockSpan(cm.tab, start);
    cm.RowIs(b);
    if cm.cd[cm.mem[cm.tptr[b]][0]].block == cm.tptr[b] {
      ListSolid(n, cm, b, lp, rp);
      return;
    }
    cm.NotShared(b);
    ListMixed(n, cm, b, lp, rp);
  }

  /** A block of several colors is listed run by run. */
  method ListMixed(n: Nfa, cm: ColorMap, b: nat, lp: nat, rp: nat)
    requires Reading(n, cm, lp, rp) && b < |cm.tptr| && Private(cm.M(), b, cm.tptr[b])
    modifies n`outs, n`ins, n`arcs, n`colors, cm
    ensures Reading(n, cm, lp, rp)
    ensures Adds(old(n.arcs), old(cm.M()), n.arcs, cm.M(), lp, rp, Places(cm.tab, b, 0, cm.tab))
  {
    var i := 0;
    while i < cm.tab
      invariant Reading(n, cm, lp, rp) && b < |cm.tptr| && Private(cm.M(), b, cm.tptr[b]) && i <= cm.tab
      invariant Adds(old(n.arcs), old(cm.M()), n.arcs, cm.M(), lp, rp, Places(cm.tab, b, 0, i))
    {
      ghost var arcs, m := n.arcs, cm.M();
      var j := ListRun(n, cm, b, i, lp, rp);
      AddsBoth(old(n.arcs), old(cm.M()), arcs, m, n.arcs, cm.M(), lp, rp, Places(cm.tab, b, 0, i), Places(cm.tab, b, i, j));
      assert Places(cm.tab, b, 0, i) + Places(cm.tab, b, i, j) == Places(cm.tab, b, 0, j);
      i := j;
    }
  }

  lemma BlockSpan(tab: nat, start: nat)
    requires tab > 0 && start % tab == 0
    ensures Places(tab, start / tab, 0, tab) == Span(start, start + tab - 1)
  {
    var b := start / tab;
    forall c: nat
      ensures c in Places(tab, b, 0, tab) <==> c in Span(start, start + tab - 1)
    {
      InBlock(tab, b, c);
    }
  }

  lemma InBlock(tab: nat, b: nat, c: nat)
    requires tab > 0
    ensures c / tab == b <==> tab * b <= c < tab * b + tab
  {
    var q, r := c / tab, c % tab;
    assert c == tab * q + r;
    if q < b {
      MulStep(tab, q, b);
    } else if b < q {
      MulStep(tab, b, q);
    }
  }

  lemma SpanOne(c: nat)
    ensures Span(c, c) == iset{c}
  {
    forall d: nat
      ensures d in Span(c, c) <==> d == c
    {
      assert Within(d, c, c) <==> d == c;
    }
  }

  lemma SpanJoin(from: int, mid: int, to: int)
    requires from <= mid && mid - 1 <= to
    ensures Span(from, mid - 1) + Span(mid, to) == Span(from, to)
  {
    forall d: nat
      ensures d in Span(from, mid - 1) + Span(mid, to) <==> d in Span(from, to)
    {
      assert Within(d, from, mid - 1) || Within(d, mid, to) <==> Within(d, from, to);
    }
  }

  lemma AddsNothing(arcs: set<Arc>, m: Cm, lp: nat, rp: nat, from: nat, last: int)
    requires last < from
    ensures Adds(arcs, m, arcs, m, lp, rp, Span(from, last))
  {
    assert forall c: nat :: !Within(c, from, last);
    assert Span(from, last) == iset{};
  }

  /** List the characters from `from` up to but not including `to` one by one. */
  method ListChars(n: Nfa, cm: ColorMap, from: nat, to: nat, lp: nat, rp: nat)
    requires Reading(n, cm, lp, rp) && from <= to && (from < to ==> cm.In(to - 1))
    modifies n`outs, n`ins, n`arcs, n`colors, cm
    ensures Reading(n, cm, lp, rp)
    ensures Adds(old(n.arcs), old(cm.M()), n.arcs, cm.M(), lp, rp, Span(from, to - 1))
  {
    var c := from;
    AddsNothing(n.arcs, cm.M(), lp, rp, from, from - 1);
    while c < to
      invariant Reading(n, cm, lp, rp) && from <= c <= to && (c < to ==> cm.In(to - 1))
      invariant Adds(old(n.arcs), old(cm.M()), n.arcs, cm.M(), lp, rp, Span(from, c - 1))
    {
      ghost var arcs, m := n.arcs, cm.M();
      LowerIn(cm.tab, c, to - 1);
      ListChar(n, cm, c, lp, rp);
      AddsBoth(old(n.arcs), old(cm.M()), arcs, m, n.arcs, cm.M(), lp, rp, Span(from, c - 1), iset{c});
      SpanOne(c);
      SpanJoin(from, c, c);
      c := c + 1;
    }
  }

  lemma LowerIn(tab: nat, c: nat, d: nat)
    requires tab > 0 && c <= d
    ensures c / tab <= d / tab
  {
    InBlock(tab, c / tab, c);
    InBlock(tab, d / tab, d);
    if d / tab < c / tab {
      MulStep(tab, d / tab, c / tab);
    }
  }

  /** Lists block after block while they lie in the range; what is left starts at `next`. */
  method ListBlocks(n: Nfa, cm: ColorMap, from: nat, to: nat, lp: nat, rp: nat) returns (next: nat)
    requires Reading(n, cm, lp, rp) && cm.In(to) && from % cm.tab == 0 && from <= to
    modifies n`outs, n`ins, n`arcs, n`colors, cm
    ensures Reading(n, cm, lp, rp) && cm.In(to) && from <= next <= to
    ensures Adds(old(n.arcs), old(cm.M()), n.arcs, cm.M(), lp, rp, Span(from, next - 1))
  {
    next := from;
    AddsNothing(n.arcs, cm.M(), lp, rp, from, from - 1);
    while to - next >= cm.tab
      invariant Reading(n, cm, lp, rp) && cm.In(to) && from <= next <= to && next % cm.tab == 0
      invariant Adds(old(n.arcs), old(cm.M()), n.arcs, cm.M(), lp, rp, Span(from, next - 1))
    {
      ghost var arcs, m := n.arcs, cm.M();
      LowerIn(cm.tab, next, to);
      SubBlock(n, cm, next, lp, rp);
      AddsBoth(old(n.arcs), old(cm.M()), arcs, m, n.arcs, cm.M(), lp, rp, Span(from, next - 1), Span(next, next + cm.tab - 1));
      SpanJoin(from, next, next + cm.tab - 1);
      NextBlock(cm.tab, next);
      next := next + cm.tab;
    }
  }

  lemma NextBlock(tab: nat, c: nat)
    requires tab > 0 && c % tab == 0
    ensures (c + tab) % tab == 0
  {
    var b := c / tab;
    assert c == tab * b;
    assert tab * (b + 1) == tab * b + tab;
    DivIs(tab, b + 1, 0);
  }

  /** Round up to a block boundary. */
  function Aligned(tab: nat, c: nat): nat
    requires tab > 0
  {
    (c + tab - 1) / tab * tab
  }

  lemma AlignedIs(tab: nat, c: nat)
    requires tab > 0
    ensures c <= Aligned(tab, c) < c + tab && Aligned(tab, c) % tab == 0
  {
    var d := c + tab - 1;
    var b := d / tab;
    InBlock(tab, b, d);
    assert b * tab == tab * b;
    DivIs(tab, b, 0);
  }

  /** `subrange`: list a range, block by block where it covers whole blocks. */
  method SubRange(n: Nfa, cm: ColorMap, from: nat, to: nat, lp: nat, rp: nat)
    requires Reading(n, cm, lp, rp) && from <= to && cm.In(to)
    modifies n`outs, n`ins, n`arcs, n`colors, cm
    ensures Reading(n, cm, lp, rp)
    ensures Adds(old(n.arcs), old(cm.M()), n.arcs, cm.M(), lp, rp, Span(from, to))
  {
    AlignedIs(cm.tab, from);
    var first := Aligned(cm.tab, from);
    if first > to {
      ListChars(n, cm, from, to + 1, lp, rp);
      return;
    }
    if first > from {
      LowerIn(cm.tab, first - 1, to);
    }
    ListChars(n, cm, from, first, lp, rp);
    ghost var arcs, m := n.arcs, cm.M();
    ListAligned(n, cm, first, to, lp, rp);
    AddsBoth(old(n.arcs), old(cm.M()), arcs, m, n.arcs, cm.M(), lp, rp, Span(from, first - 1), Span(first, to));
    SpanJoin(from, first, to);
  }

  /** A range that begins with a block: blocks first, then the characters after the last of them. */
  method ListAligned(n: Nfa, cm: ColorMap, from: nat, to: nat, lp: nat, rp: nat)
    requires Reading(n, cm, lp, rp) && from <= to && cm.In(to) && from % cm.tab == 0
    modifies n`outs, n`ins, n`arcs, n`colors, cm
    ensures Reading(n, cm, lp, rp)
    ensures Adds(old(n.arcs), old(cm.M()), n.arcs, cm.M(), lp, rp, Span(from, to))
  {
    var next: int := ListBlocks(n, cm, from, to, lp, rp);
    ghost var arcs, m := n.arcs, cm.M();
    ListChars(n, cm, next, to + 1, lp, rp);
    AddsBoth(old(n.arcs), old(cm.M()), arcs, m, n.arcs, cm.M(), lp, rp, Span(from, next - 1), Span(next, to));
    SpanJoin(from, next, to);
  }
}
