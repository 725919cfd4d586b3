/** The steps of the color map's operations on plain values, each keeping the map good. */
module ColorSteps {
  import opened Colors
  import opened Folding

  /** A color map: block size, rows, tree of block addresses, blocks, descriptors and free chain. */
  datatype Cm = Cm(tab: nat, rows: Rows, tptr: seq<nat>, mem: map<nat, seq<nat>>, cd: seq<ColorDesc>, max: nat,
                   free: int, chain: seq<nat>)

  /** What holds of the tree of blocks. */
  ghost predicate GoodTree(m: Cm) {
    && TreeOk(m.tab, m.rows, m.tptr, m.mem) && SolidsOk(m.tab, m.cd, m.max, m.mem) && SharingOk(m.rows, m.tptr, m.cd)
    && RowsReal(m.rows, m.cd, m.max)
  }

  /** What holds of a color map, the counts aside. */
  ghost predicate Sound(m: Cm) {
    GoodTree(m) && SubsOk(m.cd, m.max) && FreeOk(m.cd, m.max, m.free, m.chain)
  }

  ghost predicate Counted(m: Cm) {
    CountsOk(m.rows, m.cd, m.max)
  }

  /** The descriptors in m' are no worse for the tree than those in m. */
  ghost predicate DescsKept(cd: seq<ColorDesc>, max: nat, cd': seq<ColorDesc>, max': nat) {
    && max < |cd| && max <= max' < |cd'|
    && (forall x: nat | x <= max :: cd'[x].block == cd[x].block && (!cd[x].free ==> !cd'[x].free && cd'[x].pseudo == cd[x].pseudo))
    && forall x: nat | max < x <= max' :: cd'[x].block == NIL
  }

  lemma TreeKept(m: Cm, m': Cm)
    requires GoodTree(m) && DescsKept(m.cd, m.max, m'.cd, m'.max)
    requires m'.tab == m.tab && m'.rows == m.rows && m'.tptr == m.tptr && m'.mem == m.mem
    ensures GoodTree(m')
  {
    forall x: nat | x <= m'.max && m'.cd[x].block != NIL
      ensures SolidOk(m.tab, m'.cd[x], x, m.mem)
    {
      assert SolidOk(m.tab, m.cd[x], x, m.mem);
    }
    forall b, i | 0 <= b < |m.rows| && 0 <= i < |m.rows[b]|
      ensures IsReal(m'.cd, m'.max, m.rows[b][i])
    {
      assert IsReal(m.cd, m.max, m.rows[b][i]);
    }
    forall b, d | 0 <= b < |m.rows| && 0 <= d < |m.rows| && b != d && m.tptr[b] == m.tptr[d]
      ensures Shareable(m.rows, m.tptr, m'.cd, b)
    {
      assert Shareable(m.rows, m.tptr, m.cd, b);
      assert IsReal(m.cd, m.max, m.rows[b][0]);
    }
  }

  /** Colors keep their counts, and new ones have no characters. */
  lemma CountsKept(m: Cm, m': Cm)
    requires RowsReal(m.rows, m.cd, m.max) && CountsOk(m.rows, m.cd, m.max) && m'.rows == m.rows
    requires forall x: nat | IsReal(m'.cd, m'.max, x) ::
      if IsReal(m.cd, m.max, x) then m'.cd[x].nchrs == m.cd[x].nchrs else m'.cd[x].nchrs == 0
    ensures CountsOk(m'.rows, m'.cd, m'.max)
  {
    forall x: nat | IsReal(m'.cd, m'.max, x)
      ensures m'.cd[x].nchrs == Count(m.rows, x)
    {
      if !IsReal(m.cd, m.max, x) {
        NoneOf(m, x);
      }
    }
  }

  lemma NoneOf(m: Cm, x: nat)
    requires RowsReal(m.rows, m.cd, m.max) && !IsReal(m.cd, m.max, x)
    ensures Count(m.rows, x) == 0
  {
    forall b | 0 <= b < |m.rows|
      ensures x !in m.rows[b]
    {
      forall i | 0 <= i < |m.rows[b]| ensures m.rows[b][i] != x { assert IsReal(m.cd, m.max, m.rows[b][i]); }
    }
    CountNone(m.rows, x);
  }

  const BLANK := ColorDesc(0, NOSUB, false, false, NIL)

  /** Not in use: no character has it. */
  ghost predicate Vacant(m: Cm, co: nat) {
    co > m.max || (co < |m.cd| && m.cd[co].free)
  }

  // ----- newcolor

  ghost function Renewed(m: Cm): Cm
    requires m.chain != [] && m.chain[0] < |m.cd|
  {
    m.(cd := m.cd[m.chain[0] := BLANK], free := m.cd[m.chain[0]].sub, chain := m.chain[1..])
  }

  lemma RenewedFree(cd: seq<ColorDesc>, max: nat, free: int, chain: seq<nat>)
    requires FreeOk(cd, max, free, chain) && chain != []
    ensures FreeAt(cd, max, chain, 0) && chain[0] < |cd|
    ensures FreeOk(cd[chain[0] := BLANK], max, cd[chain[0]].sub, chain[1..])
  {
    assert FreeAt(cd, max, chain, 0);
    var cd', rest := cd[chain[0] := BLANK], chain[1..];
    forall i: nat | i < |rest|
      ensures FreeAt(cd', max, rest, i)
    {
      assert FreeAt(cd, max, chain, i + 1);
    }
    forall x: nat | x <= max && cd'[x].free
      ensures x in rest
    {
      var k :| 0 <= k < |chain| && chain[k] == x;
      assert rest[k - 1] == x;
    }
  }

  lemma RenewedSound(m: Cm)
    requires Sound(m) && m.chain != []
    ensures 0 < m.chain[0] <= m.max < |m.cd| && Sound(Renewed(m)) && Vacant(m, m.chain[0])
    ensures Counted(m) ==> Counted(Renewed(m))
  {
    RenewedFree(m.cd, m.max, m.free, m.chain);
    var co, m' := m.chain[0], Renewed(m);
    assert m.cd[co].block != NIL ==> SolidOk(m.tab, m.cd[co], co, m.mem);
    TreeKept(m, m');
    if Counted(m) {
      CountsKept(m, m');
    }
    RenewedSubs(m.cd, m.max, co);
  }

  lemma RenewedSubs(cd: seq<ColorDesc>, max: nat, co: nat)
    requires SubsOk(cd, max) && co <= max && cd[co].free
    ensures SubsOk(cd[co := BLANK], max)
  {
    var cd' := cd[co := BLANK];
    forall s: nat | s <= max && IsOpen(cd', s)
      ensures IsReal(cd', max, s) && HasParent(cd', max, s)
    {
      assert IsOpen(cd, s) && HasParent(cd, max, s);
      var p: nat :| p <= max && IsParent(cd, p) && cd[p].sub == s;
      assert IsParent(cd', p);
    }
    forall p: nat | p <= max && IsParent(cd', p)
      ensures IsReal(cd', max, p) && cd'[p].sub >= 0 && IsReal(cd', max, cd'[p].sub) && IsOpen(cd', cd'[p].sub)
    {
      assert IsParent(cd, p);
    }
  }

  /** The table of descriptors with one more in use. */
  ghost function Extended(m: Cm): Cm
    requires m.max < |m.cd|
  {
    m.(cd := if m.max + 1 < |m.cd| then m.cd[m.max + 1 := BLANK] else m.cd + [BLANK], max := m.max + 1)
  }

  lemma ExtendedFree(m: Cm)
    requires FreeOk(m.cd, m.max, m.free, m.chain)
    ensures FreeOk(Extended(m).cd, m.max + 1, m.free, m.chain)
  {
    var cd, top := Extended(m).cd, m.max + 1;
    forall i: nat | i < |m.chain|
      ensures FreeAt(cd, top, m.chain, i)
    {
      assert FreeAt(m.cd, m.max, m.chain, i);
    }
  }

  lemma ExtendedSound(m: Cm)
    requires Sound(m)
    ensures Sound(Extended(m)) && (Counted(m) ==> Counted(Extended(m)))
  {
    var m' := Extended(m);
    TreeKept(m, m');
    if Counted(m) {
      CountsKept(m, m');
    }
    ExtendedSubs(m.cd, m'.cd, m.max);
    ExtendedFree(m);
  }

  lemma ExtendedSubs(cd: seq<ColorDesc>, cd': seq<ColorDesc>, max: nat)
    requires SubsOk(cd, max) && max + 1 < |cd'| && cd'[max + 1] == BLANK && forall x | 0 <= x <= max :: cd'[x] == cd[x]
    ensures SubsOk(cd', max + 1)
  {
    forall s: nat | s <= max + 1 && IsOpen(cd', s)
      ensures IsReal(cd', max + 1, s) && HasParent(cd', max + 1, s)
    {
      assert IsOpen(cd, s) && HasParent(cd, max, s);
      var p: nat :| p <= max && IsParent(cd, p) && cd[p].sub == s;
      assert IsParent(cd', p);
    }
    forall p: nat | p <= max + 1 && IsParent(cd', p)
      ensures IsReal(cd', max + 1, p) && cd'[p].sub >= 0 && IsReal(cd', max + 1, cd'[p].sub) && IsOpen(cd', cd'[p].sub)
    {
      assert IsParent(cd, p);
    }
  }

  // ----- newsub

  /** co gets the new color sco as its open subcolor. */
  ghost function Subbed(m: Cm, co: nat, sco: nat): Cm
    requires co < |m.cd| && sco < |m.cd|
  {
    m.(cd := m.cd[co := m.cd[co].(sub := sco)][sco := m.cd[sco].(sub := sco)])
  }

  lemma SubbedFree(cd: seq<ColorDesc>, cd': seq<ColorDesc>, max: nat, free: int, chain: seq<nat>)
    requires FreeOk(cd, max, free, chain) && |cd'| == |cd|
    requires forall x: nat | x <= max :: cd'[x].free == cd[x].free && (cd[x].free ==> cd'[x].sub == cd[x].sub)
    ensures FreeOk(cd', max, free, chain)
  {
    forall i: nat | i < |chain|
      ensures FreeAt(cd', max, chain, i)
    {
      assert FreeAt(cd, max, chain, i);
    }
  }

  lemma SubbedSound(m: Cm, co: nat, sco: nat)
    requires Sound(m) && IsReal(m.cd, m.max, co) && m.cd[co].sub == NOSUB && sco <= m.max && sco != co && m.cd[sco] == BLANK
    ensures Sound(Subbed(m, co, sco)) && (Counted(m) ==> Counted(Subbed(m, co, sco)))
  {
    var m' := Subbed(m, co, sco);
    TreeKept(m, m');
    if Counted(m) {
      CountsKept(m, m');
    }
    SubbedSubs(m.cd, m.max, co, sco);
    SubbedFree(m.cd, m'.cd, m.max, m.free, m.chain);
  }

  lemma SubbedSubs(cd: seq<ColorDesc>, max: nat, co: nat, sco: nat)
    requires SubsOk(cd, max) && IsReal(cd, max, co) && cd[co].sub == NOSUB && sco <= max && sco != co && cd[sco] == BLANK
    ensures SubsOk(cd[co := cd[co].(sub := sco)][sco := cd[sco].(sub := sco)], max)
  {
    var cd' := cd[co := cd[co].(sub := sco)][sco := cd[sco].(sub := sco)];
    assert IsParent(cd', co) && cd'[co].sub == sco;
    forall s: nat | s <= max && IsOpen(cd', s)
      ensures IsReal(cd', max, s) && HasParent(cd', max, s)
    {
      if s != sco {
        assert IsOpen(cd, s) && HasParent(cd, max, s);
        var p: nat :| p <= max && IsParent(cd, p) && cd[p].sub == s;
        assert IsParent(cd', p);
      }
    }
    forall p: nat | p <= max && IsParent(cd', p)
      ensures IsReal(cd', max, p) && cd'[p].sub >= 0 && IsReal(cd', max, cd'[p].sub) && IsOpen(cd', cd'[p].sub)
      ensures p != co ==> cd'[p].sub != sco
    {
      assert p != co ==> IsParent(cd, p) && IsOpen(cd, cd[p].sub);
    }
  }

  // ----- changing the colors of characters

  /** Only counts have changed. */
  lemma Recounted(m: Cm, cd: seq<ColorDesc>)
    requires Sound(m) && |cd| == |m.cd| && forall x | 0 <= x < |cd| :: cd[x] == m.cd[x].(nchrs := cd[x].nchrs)
    ensures Sound(m.(cd := cd))
  {
    TreeKept(m, m.(cd := cd));
    ChangedSubs(m.cd, cd, m.max);
    SubbedFree(m.cd, cd, m.max, m.free, m.chain);
  }

  /** The counts after k characters went from co to sco. */
  function Shifted(cd: seq<ColorDesc>, co: nat, sco: nat, k: int): (r: seq<ColorDesc>)
    requires co < |cd| && sco < |cd|
    ensures |r| == |cd|
  {
    var cd1 := cd[co := cd[co].(nchrs := cd[co].nchrs - k)];
    cd1[sco := cd1[sco].(nchrs := cd1[sco].nchrs + k)]
  }

  /** Row b has changed, in a block of its own or in a solid one, and the counts with it. */
  ghost predicate Changed(m: Cm, m': Cm, b: nat, row: seq<nat>, t: nat) {
    && b < |m.tptr| == |m.rows| && |row| == m.tab
    && m'.tab == m.tab && m'.rows == m.rows[b := row] && m'.tptr == m.tptr[b := t]
    && t in m'.mem && m'.mem[t] == row
    && (forall x | x in m.mem && x != t :: x in m'.mem && m'.mem[x] == m.mem[x])
    && m'.max == m.max && m'.free == m.free && m'.chain == m.chain && |m'.cd| == |m.cd|
    && forall x | 0 <= x < |m.cd| :: m'.cd[x] == m.cd[x].(nchrs := m'.cd[x].nchrs, block := m'.cd[x].block)
  }

  /** The block is nobody else's. */
  ghost predicate Private(m: Cm, b: nat, t: nat) {
    && (forall d | 0 <= d < |m.tptr| && d != b :: m.tptr[d] != t)
    && forall x: nat | x <= m.max && x < |m.cd| :: m.cd[x].block != t
  }

  lemma ChangedSound(m: Cm, m': Cm, b: nat, row: seq<nat>, t: nat)
    requires Sound(m) && Changed(m, m', b, row, t)
    requires forall i | 0 <= i < |row| :: IsReal(m.cd, m.max, row[i])
    requires (Private(m, b, t) && forall x | 0 <= x < |m.cd| :: m'.cd[x].block == m.cd[x].block)
             || (Shareable(m'.rows, m'.tptr, m'.cd, b) && IsSolid(row, row[0]) && SolidFor(m, m', row[0], t))
    ensures Sound(m')
  {
    ChangedSubs(m.cd, m'.cd, m.max);
    SubbedFree(m.cd, m'.cd, m.max, m.free, m.chain);
    ChangedReal(m, m', b, row, t);
    ChangedSharing(m, m', b, row, t);
    ChangedSolids(m, m', b, row, t);
  }

  lemma ChangedReal(m: Cm, m': Cm, b: nat, row: seq<nat>, t: nat)
    requires RowsReal(m.rows, m.cd, m.max) && Changed(m, m', b, row, t)
    requires forall i | 0 <= i < |row| :: IsReal(m.cd, m.max, row[i])
    ensures RowsReal(m'.rows, m'.cd, m'.max)
  {
    forall d, i | 0 <= d < |m'.rows| && 0 <= i < |m'.rows[d]|
      ensures IsReal(m'.cd, m'.max, m'.rows[d][i])
    {
      assert d != b ==> IsReal(m.cd, m.max, m.rows[d][i]);
    }
  }

  lemma ChangedSolids(m: Cm, m': Cm, b: nat, row: seq<nat>, t: nat)
    requires GoodTree(m) && Changed(m, m', b, row, t) && row != []
    requires (Private(m, b, t) && forall x | 0 <= x < |m.cd| :: m'.cd[x].block == m.cd[x].block)
             || (IsSolid(row, row[0]) && IsReal(m.cd, m.max, row[0]) && SolidFor(m, m', row[0], t))
    ensures SolidsOk(m'.tab, m'.cd, m'.max, m'.mem)
  {
    forall x: nat | x <= m.max && m'.cd[x].block != NIL
      ensures SolidOk(m.tab, m'.cd[x], x, m'.mem)
    {
      if m'.cd[x].block == m.cd[x].block {
        assert SolidOk(m.tab, m.cd[x], x, m.mem);
      }
    }
  }

  /** t is the solid block of v, perhaps a new one. */
  ghost predicate SolidFor(m: Cm, m': Cm, v: nat, t: nat) {
    && v <= m.max < |m.cd| == |m'.cd| && m'.cd[v].block == t
    && (forall x | 0 <= x < |m.cd| && x != v :: m'.cd[x].block == m.cd[x].block)
    && (m.cd[v].block == t || (m.cd[v].block == NIL && t !in m.mem))
  }

  lemma ChangedSubs(cd: seq<ColorDesc>, cd': seq<ColorDesc>, max: nat)
    requires SubsOk(cd, max) && |cd'| == |cd|
    requires forall x | 0 <= x < |cd| :: cd'[x] == cd[x].(nchrs := cd'[x].nchrs, block := cd'[x].block)
    ensures SubsOk(cd', max)
  {
    forall s: nat | s <= max && IsOpen(cd', s)
      ensures IsReal(cd', max, s) && HasParent(cd', max, s)
    {
      assert IsOpen(cd, s) && HasParent(cd, max, s);
      var p: nat :| p <= max && IsParent(cd, p) && cd[p].sub == s;
      assert IsParent(cd', p);
    }
    forall p: nat | p <= max && IsParent(cd', p)
      ensures IsReal(cd', max, p) && cd'[p].sub >= 0 && IsReal(cd', max, cd'[p].sub) && IsOpen(cd', cd'[p].sub)
    {
      assert IsParent(cd, p);
    }
  }

  lemma ChangedSharing(m: Cm, m': Cm, b: nat, row: seq<nat>, t: nat)
    requires GoodTree(m) && Changed(m, m', b, row, t) && m.tab > 0
    requires (Private(m, b, t) && forall x | 0 <= x < |m.cd| :: m'.cd[x].block == m.cd[x].block)
             || (Shareable(m'.rows, m'.tptr, m'.cd, b) && IsSolid(row, row[0]) && SolidFor(m, m', row[0], t))
    ensures TreeOk(m'.tab, m'.rows, m'.tptr, m'.mem) && SharingOk(m'.rows, m'.tptr, m'.cd)
  {
    forall d | 0 <= d < |m'.tptr| && d != b && m.tptr[d] == t
      ensures m.rows[d] == row
    {
      var v := row[0];
      assert m.cd[v].block == t;
      assert SolidOk(m.tab, m.cd[v], v, m.mem);
      assert m.rows[d] == row;
    }
    forall d, e | 0 <= d < |m'.rows| && 0 <= e < |m'.rows| && d != e && m'.tptr[d] == m'.tptr[e]
      ensures Shareable(m'.rows, m'.tptr, m'.cd, d)
    {
      if d != b && e != b {
        assert Shareable(m.rows, m.tptr, m.cd, d);
      }
    }
  }

  // ----- freecolor

  /** A chain of free descriptors, wherever they are. */
  ghost predicate LinkedFree(cd: seq<ColorDesc>, top: nat, chain: seq<nat>) {
    && (forall i: nat | i < |chain| :: FreeAt(cd, top, chain, i))
    && forall i, k | 0 <= i < k < |chain| :: chain[i] != chain[k]
  }

  /** Taking out what follows the last of `kept`. */
  lemma Unlinked(cd: seq<ColorDesc>, top: nat, kept: seq<nat>, rest: seq<nat>)
    requires kept != [] && rest != [] && LinkedFree(cd, top, kept + rest)
    ensures kept[|kept| - 1] < |cd| && rest[0] < |cd| && cd[rest[0]].sub == Head(rest[1..])
    ensures LinkedFree(cd[kept[|kept| - 1] := cd[kept[|kept| - 1]].(sub := cd[rest[0]].sub)], top, kept + rest[1..])
  {
    var all, less, n := kept + rest, kept + rest[1..], |kept|;
    assert FreeAt(cd, top, all, n - 1) && FreeAt(cd, top, all, n);
    assert all[n - 1] == kept[n - 1] && all[n] == rest[0];
    var cd' := cd[kept[n - 1] := cd[kept[n - 1]].(sub := cd[rest[0]].sub)];
    forall i: nat | i < |less|
      ensures FreeAt(cd', top, less, i)
      ensures forall k | i < k < |less| :: less[i] != less[k]
    {
      var j := if i < n then i else i + 1;
      assert FreeAt(cd, top, all, j) && all[j] == less[i];
      assert i != n - 1 ==> Next(less, i) == Next(all, j) && less[i] != kept[n - 1];
      forall k | i < k < |less|
        ensures less[i] != less[k]
      {
        assert all[j] != all[if k < n then k else k + 1];
      }
    }
  }

  function Head(chain: seq<nat>): int {
    if chain == [] then 0 else chain[0]
  }

  /** Dropping the first of a free chain. */
  lemma LinkedTail(cd: seq<ColorDesc>, top: nat, chain: seq<nat>)
    requires chain != [] && LinkedFree(cd, top, chain)
    ensures 0 < chain[0] < |cd| && cd[chain[0]].sub == Head(chain[1..]) && LinkedFree(cd, top, chain[1..])
  {
    assert FreeAt(cd, top, chain, 0);
    var rest := chain[1..];
    forall i: nat | i < |rest|
      ensures FreeAt(cd, top, rest, i)
    {
      assert FreeAt(cd, top, chain, i + 1);
    }
  }

  /** co, which had no characters, is free now; `max` may be less, but not below any color in use. */
  ghost predicate Freed(m: Cm, m': Cm, co: nat) {
    && m'.tab == m.tab && m'.rows == m.rows && m'.tptr == m.tptr && m.max < |m.cd| == |m'.cd| && m'.max <= m.max && co <= m.max
    && m'.mem == (if m.cd[co].block >= 0 then m.mem - {m.cd[co].block as nat} else m.mem)
    && m'.cd[co].free && m'.cd[co].block == NIL
    && (forall x: nat | x <= m.max && x != co && !m.cd[x].free :: m'.cd[x] == m.cd[x] && x <= m'.max)
    && forall x: nat | x <= m.max && x != co && m.cd[x].free :: m'.cd[x].free && m'.cd[x].block == m.cd[x].block
  }

  lemma FreedTree(m: Cm, m': Cm, co: nat)
    requires GoodTree(m) && Freed(m, m', co) && co != WHITE && Count(m.rows, co) == 0
    ensures GoodTree(m')
  {
    forall b, i | 0 <= b < |m.rows| && 0 <= i < |m.rows[b]|
      ensures m.rows[b][i] != co && IsReal(m'.cd, m'.max, m.rows[b][i])
    {
      CountSome(m.rows, b, i);
      assert IsReal(m.cd, m.max, m.rows[b][i]);
    }
    forall x: nat | x <= m'.max && m'.cd[x].block != NIL
      ensures SolidOk(m.tab, m'.cd[x], x, m'.mem)
    {
      assert SolidOk(m.tab, m.cd[x], x, m.mem);
      assert m.cd[co].block != NIL ==> SolidOk(m.tab, m.cd[co], co, m.mem) && m.mem[m.cd[co].block][0] == co;
      assert m.mem[m.cd[x].block][0] == x;
    }
    forall b | 0 <= b < |m.tptr|
      ensures m.tptr[b] in m'.mem && m'.mem[m.tptr[b]] == m.rows[b]
    {
      assert m.cd[co].block != NIL ==> SolidOk(m.tab, m.cd[co], co, m.mem) && m.mem[m.cd[co].block][0] == co;
      assert m.mem[m.tptr[b]][0] == m.rows[b][0];
    }
    forall b, d | 0 <= b < |m.rows| && 0 <= d < |m.rows| && b != d && m.tptr[b] == m.tptr[d]
      ensures Shareable(m.rows, m.tptr, m'.cd, b)
    {
      assert Shareable(m.rows, m.tptr, m.cd, b) && IsReal(m.cd, m.max, m.rows[b][0]) && m.rows[b][0] != co;
    }
  }

  lemma FreedSubs(m: Cm, m': Cm, co: nat)
    requires SubsOk(m.cd, m.max) && Freed(m, m', co) && IsReal(m.cd, m.max, co) && m.cd[co].sub == NOSUB
    ensures SubsOk(m'.cd, m'.max)
  {
    forall s: nat | s <= m'.max && IsOpen(m'.cd, s)
      ensures IsReal(m'.cd, m'.max, s) && HasParent(m'.cd, m'.max, s)
    {
      assert IsOpen(m.cd, s) && HasParent(m.cd, m.max, s);
      var p: nat :| p <= m.max && IsParent(m.cd, p) && m.cd[p].sub == s;
      assert IsParent(m'.cd, p);
    }
    forall p: nat | p <= m'.max && IsParent(m'.cd, p)
      ensures IsReal(m'.cd, m'.max, p) && m'.cd[p].sub >= 0 && IsReal(m'.cd, m'.max, m'.cd[p].sub) && IsOpen(m'.cd, m'.cd[p].sub)
    {
      assert IsParent(m.cd, p);
    }
  }

  lemma FreedSound(m: Cm, m': Cm, co: nat)
    requires Sound(m) && Freed(m, m', co) && co != WHITE && Count(m.rows, co) == 0 && IsReal(m.cd, m.max, co) && m.cd[co].sub == NOSUB
    requires FreeOk(m'.cd, m'.max, m'.free, m'.chain)
    ensures Sound(m') && (Counted(m) ==> Counted(m'))
  {
    FreedTree(m, m', co);
    FreedSubs(m, m', co);
    forall x: nat | IsReal(m'.cd, m'.max, x)
      ensures IsReal(m.cd, m.max, x) && m'.cd[x] == m.cd[x]
    {}
  }

  // ----- the same, sealed

  /** The map is sound, not to be looked into. */
  ghost predicate TightMap(m: Cm) {
    forall u {:trigger Glance(u)} :: Glance(u) ==> Sound(m)
  }

  lemma LoosenMap(m: Cm)
    requires TightMap(m)
    ensures Sound(m)
  {
    assert Glance(0);
  }

  lemma Basics(m: Cm)
    requires TightMap(m)
    ensures m.max < |m.cd| && |m.rows| == |m.tptr| && m.tab > 0
    ensures if m.chain == [] then m.free == 0 else 0 < m.free == m.chain[0] <= m.max
  {
    LoosenMap(m);
    assert m.chain != [] ==> FreeAt(m.cd, m.max, m.chain, 0);
  }

  lemma RenewedTight(m: Cm)
    requires TightMap(m) && m.chain != []
    ensures 0 < m.chain[0] <= m.max < |m.cd| && TightMap(Renewed(m)) && Vacant(m, m.chain[0])
    ensures Counted(m) ==> Counted(Renewed(m))
  {
    LoosenMap(m);
    RenewedSound(m);
  }

  lemma ExtendedTight(m: Cm)
    requires TightMap(m)
    ensures m.max < |m.cd| && TightMap(Extended(m)) && (Counted(m) ==> Counted(Extended(m)))
  {
    LoosenMap(m);
    ExtendedSound(m);
  }

  lemma SubbedTight(m: Cm, co: nat, sco: nat)
    requires TightMap(m) && IsReal(m.cd, m.max, co) && m.cd[co].sub == NOSUB && sco <= m.max && sco != co && m.cd[sco] == BLANK
    ensures TightMap(Subbed(m, co, sco)) && (Counted(m) ==> Counted(Subbed(m, co, sco)))
  {
    LoosenMap(m);
    SubbedSound(m, co, sco);
  }

  lemma RecountedTight(m: Cm, cd: seq<ColorDesc>)
    requires TightMap(m) && |cd| == |m.cd| && forall x | 0 <= x < |cd| :: cd[x] == m.cd[x].(nchrs := cd[x].nchrs)
    ensures TightMap(m.(cd := cd))
  {
    LoosenMap(m);
    Recounted(m, cd);
  }

  /** p's open subcolor is a full color now. */
  ghost function Promoted(m: Cm, p: nat, sco: nat): Cm
    requires p < |m.cd| && sco < |m.cd|
  {
    m.(cd := m.cd[p := m.cd[p].(sub := NOSUB)][sco := m.cd[sco].(sub := NOSUB)])
  }

  lemma PromotedTight(m: Cm, p: nat)
    requires TightMap(m) && Counted(m) && p <= m.max < |m.cd| && IsParent(m.cd, p)
    ensures m.cd[p].sub >= 0 && IsReal(m.cd, m.max, p) && IsReal(m.cd, m.max, m.cd[p].sub) && IsOpen(m.cd, m.cd[p].sub)
    ensures TightMap(Promoted(m, p, m.cd[p].sub)) && Counted(Promoted(m, p, m.cd[p].sub))
  {
    LoosenMap(m);
    var sco: nat := m.cd[p].sub;
    var m' := Promoted(m, p, sco);
    TreeKept(m, m');
    CountsKept(m, m');
    PromotedSubs(m.cd, m.max, p, sco);
    SubbedFree(m.cd, m'.cd, m.max, m.free, m.chain);
  }

  lemma PromotedSubs(cd: seq<ColorDesc>, max: nat, p: nat, sco: nat)
    requires SubsOk(cd, max) && p <= max && IsParent(cd, p) && cd[p].sub == sco
    ensures SubsOk(cd[p := cd[p].(sub := NOSUB)][sco := cd[sco].(sub := NOSUB)], max)
  {
    var cd' := cd[p := cd[p].(sub := NOSUB)][sco := cd[sco].(sub := NOSUB)];
    forall s: nat | s <= max && IsOpen(cd', s)
      ensures IsReal(cd', max, s) && HasParent(cd', max, s)
    {
      assert IsOpen(cd, s) && HasParent(cd, max, s);
      var q: nat :| q <= max && IsParent(cd, q) && cd[q].sub == s;
      assert IsParent(cd', q);
    }
    forall q: nat | q <= max && IsParent(cd', q)
      ensures IsReal(cd', max, q) && cd'[q].sub >= 0 && IsReal(cd', max, cd'[q].sub) && IsOpen(cd', cd'[q].sub)
    {
      assert IsParent(cd, q) && cd[q].sub != sco;
    }
  }
}
