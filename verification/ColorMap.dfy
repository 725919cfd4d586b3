/** The color map (regc_color.c): a two-level tree of shared blocks, and color descriptors. */
module ColorMaps {
  import opened Colors
  import opened ColorSteps
  import opened Folding

  class ColorMap {
    /** Characters to a block. */
    const tab: nat
    /** The top of the tree: addresses of blocks; and the blocks, by address. */
    var tptr: seq<nat>
    var mem: map<nat, seq<nat>>
    /** Addresses given out so far. */
    var brk: nat
    /** Color descriptors, the highest in use, and the beginning of the free chain if not 0. */
    var cd: seq<ColorDesc>
    var max: nat
    var free: int
    /** The flat map the tree stands for, and the free chain. */
    ghost var rows: Rows
    ghost var chain: seq<nat>

    ghost function M(): Cm
      reads this
    {
      Cm(tab, rows, tptr, mem, cd, max, free, chain)
    }

    ghost predicate Sealed(m: Cm)
      reads this
    {
      forall u {:trigger Glance(u)} :: Glance(u) ==> m == M() && TightMap(m) && forall t | t in mem :: t < brk
    }

    /** The map is sound, the counts aside; carried along without being looked into. */
    ghost predicate Valid()
      reads this
    {
      && max < |cd| && |tptr| == |rows| && tab > 0
      && exists m: Cm :: Sealed(m)
    }

    lemma Seal()
      requires TightMap(M()) && forall t | t in mem :: t < brk
      ensures Valid()
    {
      Basics(M());
      assert Sealed(M());
    }

    lemma Unseal()
      requires Valid()
      ensures TightMap(M()) && forall t | t in mem :: t < brk
    {
      assert Glance(0);
    }

    /** The color of a character, as the flat map has it. */
    ghost function Color(c: nat): nat
      reads this
    {
      ColorAt(tab, rows, c)
    }

    ghost predicate In(c: nat)
      reads this
    {
      tab > 0 && c / tab < |rows|
    }

    ghost predicate Real(co: nat)
      reads this
    {
      IsReal(cd, max, co)
    }

    lemma Reality(c: nat)
      requires Valid() && In(c)
      ensures InAlphabet(tab, rows, c) && Real(Color(c))
      ensures c / tab < |tptr| && tptr[c / tab] in mem && mem[tptr[c / tab]] == rows[c / tab]
      ensures |rows[c / tab]| == tab && Real(rows[c / tab][0])
    {
      Unseal();
      LoosenMap(M());
      assert IsReal(cd, max, rows[c / tab][c % tab]) && IsReal(cd, max, rows[c / tab][0]);
    }

    lemma SubIs(co: nat)
      requires Valid() && Real(co)
      ensures cd[co].sub == NOSUB || (cd[co].sub >= 0 && Real(cd[co].sub))
    {
      Unseal();
      LoosenMap(M());
      assert cd[co].sub != NOSUB && cd[co].sub != co ==> IsParent(cd, co);
    }

    /** `initcm`: every character is WHITE. */
    constructor (tab: nat, size: nat)
      requires tab > 0
      ensures Valid() && CountsOk(rows, cd, max) && this.tab == tab && |rows| == size
      ensures forall c: nat | c / tab < size :: Color(c) == WHITE
      ensures max == 0 && |cd| == 1 && cd[0].sub == NOSUB
    {
      this.tab := tab;
      var fill := seq(tab, _ => WHITE);
      tptr, mem, brk := seq(size, _ => 0), map[0 := fill], 1;
      cd, max, free := [ColorDesc(tab * size, NOSUB, false, false, 0)], 0, 0;
      rows, chain := White(tab, size), [];
      new;
      WhiteSound(M(), size);
      WhiteAt(tab, size);
      Seal();
    }

    /** GETCOLOR. */
    method GetColor(c: nat) returns (co: nat)
      requires Valid() && In(c)
      ensures co == Color(c) && Real(co)
    {
      Reality(c);
      co := mem[tptr[c / tab]][c % tab];
    }

    /** `setcolor`: copy the block first if it is solid, since it may be shared. */
    method SetColor(c: nat, co: nat) returns (prev: nat)
      requires Valid() && In(c) && Real(co)
      modifies this`tptr, this`mem, this`brk, this`rows
      ensures Valid() && prev == old(Color(c))
      ensures rows == Put(old(rows), c / tab, c % tab, co)
    {
      Reality(c);
      var b, i := c / tab, c % tab;
      ghost var m := M();
      var t := tptr[b];
      Unseal();
      prev := mem[t][i];
      var row := mem[t];
      if cd[row[0]].block == t {
        t := brk;
        brk := brk + 1;
        mem := mem[t := row];
        tptr := tptr[b := t];
      }
      mem := mem[t := SetAt(mem[t], i, co)];
      rows := Put(rows, b, i, co);
      PutTight(m, M(), b, i, co, t, row);
      Seal();
    }

    /** Take the first color of the free chain. */
    method PopFree() returns (co: nat)
      requires Valid() && free != 0
      modifies this`cd, this`free, this`chain
      ensures Valid() && co == old(free) && 0 < co <= max && cd[co] == BLANK && |cd| == |old(cd)| && Vacant(old(M()), co)
      ensures forall x: nat | x < |cd| && x != co :: cd[x] == old(cd)[x]
      ensures old(CountsOk(rows, cd, max)) ==> CountsOk(rows, cd, max)
    {
      Unseal();
      ghost var m := M();
      Basics(m);
      RenewedTight(m);
      co := free as nat;
      free := cd[co].sub;
      chain := chain[1..];
      cd := cd[co := BLANK];
      Seal();
    }

    /** `newcolor`: a color no character has. */
    method NewColor() returns (co: nat)
      requires Valid()
      modifies this`cd, this`max, this`free, this`chain
      ensures Valid() && 0 < co <= max && old(max) <= max && cd[co] == BLANK
      ensures |cd| >= |old(cd)| && Vacant(old(M()), co)
      ensures if old(free) != 0 then co == old(free) && max == old(max) else co == max == old(max) + 1
      ensures forall x: nat | x < |old(cd)| && x != co :: x < |cd| && cd[x] == old(cd)[x]
      ensures old(CountsOk(rows, cd, max)) ==> CountsOk(rows, cd, max)
    {
      if free != 0 {
        co := PopFree();
        return;
      }
      Unseal();
      ExtendedTight(M());
      max := max + 1;
      co := max;
      cd := if max < |cd| then cd[max := BLANK] else cd + [BLANK];
      Seal();
    }

    /** `pseudocolor`: a false color, which no character has. */
    method PseudoColor() returns (co: nat)
      requires Valid() && CountsOk(rows, cd, max)
      modifies this`cd, this`max, this`free, this`chain
      ensures Valid() && CountsOk(rows, cd, max) && 0 < co <= max && Vacant(old(M()), co) && cd[co].pseudo && !cd[co].free
      ensures forall x: nat | x < |old(cd)| && x != co :: x < |cd| && cd[x] == old(cd)[x]
    {
      co := NewColor();
      Unseal();
      ghost var m := M();
      cd := cd[co := cd[co].(nchrs := 1, pseudo := true)];
      PseudoTight(old(M()), m, co);
      Seal();
    }

    /** `freecolor`: a color without arcs, subcolor or characters is no longer in use. WHITE stays. */
    method FreeColor(co: nat)
      requires Valid() && CountsOk(rows, cd, max) && Real(co) && cd[co].sub == NOSUB && cd[co].nchrs == 0
      modifies this`mem, this`cd, this`max, this`free, this`chain
      ensures Valid() && CountsOk(rows, cd, max)
      ensures if co == WHITE then M() == old(M()) else Freed(old(M()), M(), co)
    {
      if co == WHITE {
        return;
      }
      Unseal();
      ghost var m := M();
      FreeFacts(m, co);
      if cd[co].block != NIL {
        mem := mem - {cd[co].block as nat};
      }
      cd, max, free, chain := Retire(m, cd, max, free, co);
      FreedTight(m, M(), co);
      Seal();
    }

    /** A new subcolor, open, for a color without one. */
    method OpenSub(co: nat) returns (sco: nat)
      requires Valid() && CountsOk(rows, cd, max) && Real(co) && cd[co].sub == NOSUB && cd[co].nchrs != 1
      modifies this`cd, this`max, this`free, this`chain
      ensures Valid() && CountsOk(rows, cd, max) && Real(sco) && old(max) <= max
      ensures Subcolored(old(M()), M(), co, sco)
      ensures forall x: nat | x <= max :: x < |cd| && (cd[x].block == NIL || (x <= old(max) && x < |old(cd)| && cd[x].block == old(cd)[x].block))
      ensures cd[co].sub == sco && |cd| >= |old(cd)|
    {
      sco := NewColor();
      Unseal();
      SubbedTight(M(), co, sco);
      cd := cd[co := cd[co].(sub := sco)];
      cd := cd[sco := cd[sco].(sub := sco)];
      Seal();
    }

    /** `newsub`: the open subcolor of a color, allocated if necessary; a color with a single character needs none. */
    method NewSub(co: nat) returns (sco: nat)
      requires Valid() && CountsOk(rows, cd, max) && Real(co)
      modifies this`cd, this`max, this`free, this`chain
      ensures Valid() && CountsOk(rows, cd, max) && Real(sco) && old(max) <= max
      ensures Subcolored(old(M()), M(), co, sco)
      ensures forall x: nat | x <= max :: x < |cd| && (cd[x].block == NIL || (x <= old(max) && x < |old(cd)| && cd[x].block == old(cd)[x].block))
      ensures sco != co ==> cd[co].sub == sco
      ensures |cd| >= |old(cd)|
    {
      SubIs(co);
      if cd[co].sub == NOSUB {
        if cd[co].nchrs == 1 {
          return co;
        }
        sco := OpenSub(co);
      } else {
        sco := cd[co].sub as nat;
      }
    }

    /** The open subcolor of p becomes a full color. */
    method Promote(p: nat) returns (sco: nat)
      requires Valid() && CountsOk(rows, cd, max) && p <= max && IsParent(cd, p)
      modifies this`cd
      ensures Valid() && CountsOk(rows, cd, max) && Real(p) && Real(sco) && sco == old(cd)[p].sub && sco != p && sco < |old(cd)|
      ensures IsOpen(old(cd), sco) && cd == old(cd)[p := old(cd)[p].(sub := NOSUB)][sco := old(cd)[sco].(sub := NOSUB)]
    {
      Unseal();
      PromotedTight(M(), p);
      sco := cd[p].sub as nat;
      cd := cd[p := cd[p].(sub := NOSUB)];
      cd := cd[sco := cd[sco].(sub := NOSUB)];
      Seal();
    }

    /** Count k characters out of co and into sco. */
    method Shift(co: nat, sco: nat, k: int)
      requires Valid() && Real(co) && Real(sco)
      modifies this`cd
      ensures Valid() && cd == Shifted(old(cd), co, sco, k)
    {
      ghost var m := M();
      Unseal();
      RecountedTight(m, Shifted(cd, co, sco, k));
      cd := cd[co := cd[co].(nchrs := cd[co].nchrs - k)];
      cd := cd[sco := cd[sco].(nchrs := cd[sco].nchrs + k)];
      assert M() == m.(cd := Shifted(m.cd, co, sco, k));
      Seal();
    }

    /** `subcolor`: move a character to the open subcolor of its color. */
    method SubColor(c: nat) returns (sco: nat)
      requires Valid() && CountsOk(rows, cd, max) && In(c)
      modifies this
      ensures Valid() && CountsOk(rows, cd, max) && Real(sco) && old(max) <= max && |cd| >= |old(cd)|
      ensures rows == Put(old(rows), c / tab, c % tab, sco)
      ensures Subcolored(old(M()), M(), old(Color(c)), sco)
    {
      Reality(c);
      var co := GetColor(c);
      sco := NewSub(co);
      ghost var m := M();
      if co == sco {
        assert SetAt(rows[c / tab], c % tab, sco) == rows[c / tab];
        return;
      }
      Shift(co, sco, 1);
      var prev := SetColor(c, sco);
      OneCounted(m, M(), c / tab, c % tab, sco);
    }

    /** Set a run of color co to sco, from place i of the private block b on; where does it end? */
    method FillRun(b: nat, i: nat, co: nat, sco: nat) returns (j: nat)
      requires Valid() && b < |tptr| && b < |rows| && Private(M(), b, tptr[b]) && Real(sco)
      requires |rows[b]| == tab && i < tab && rows[b][i] == co
      modifies this`mem, this`rows
      ensures Valid() && Private(M(), b, tptr[b])
      ensures i < j <= tab && (forall k | i <= k < j :: old(rows)[b][k] == co)
      ensures rows == old(rows)[b := RunTo(old(rows)[b], i, j, sco)]
      ensures j < tab ==> old(rows)[b][j] != co
    {
      Unseal();
      ghost var m := M();
      var t := tptr[b];
      RowIs(b);
      var row := mem[t];
      j := i;
      assert RunTo(row, i, j, sco) == row;
      while j < tab && row[j] == co
        invariant i <= j <= tab && row == m.rows[b] && forall k | i <= k < j :: row[k] == co
        invariant mem == m.mem[t := RunTo(row, i, j, sco)] && rows == m.rows
      {
        assert RunTo(row, i, j + 1, sco) == SetAt(RunTo(row, i, j, sco), j, sco);
        mem := mem[t := SetAt(mem[t], j, sco)];
        j := j + 1;
      }
      rows := rows[b := RunTo(row, i, j, sco)];
      RowTight(m, M(), b, RunTo(row, i, j, sco), sco);
      Seal();
    }

    lemma RowIs(b: nat)
      requires Valid() && b < |tptr|
      ensures b < |rows| && |rows[b]| == tab && tptr[b] in mem && mem[tptr[b]] == rows[b] && Real(rows[b][0])
      ensures forall i | 0 <= i < tab :: Real(rows[b][i])
    {
      Unseal();
      LoosenMap(M());
      forall i | 0 <= i < tab
        ensures Real(rows[b][i])
      {
        assert IsReal(cd, max, rows[b][i]);
      }
    }

    lemma NotShared(b: nat)
      requires Valid() && b < |tptr| && b < |rows| && tptr[b] in mem && mem[tptr[b]] == rows[b] && rows[b] != []
      requires rows[b][0] < |cd| && cd[rows[b][0]].block != tptr[b]
      ensures Private(M(), b, tptr[b])
    {
      Unseal();
      LoosenMap(M());
      OwnBlock(M(), b, tptr[b], rows[b]);
    }

    /** Point row b, all of color co, to the solid block of sco, which is set up if necessary. */
    method PointToSolid(b: nat, sco: nat)
      requires Valid() && b < |tptr| && b < |rows| && Real(sco)
      modifies this`tptr, this`mem, this`brk, this`cd, this`rows
      ensures Valid() && rows == old(rows)[b := seq(tab, _ => sco)]
      ensures |cd| == |old(cd)| && forall x | 0 <= x < |cd| :: cd[x] == if x == sco then old(cd)[x].(block := cd[x].block) else old(cd)[x]
      ensures cd[sco].block >= 0 && tptr == old(tptr)[b := cd[sco].block] && cd[sco].block in mem && mem[cd[sco].block] == seq(tab, _ => sco)
      ensures old(cd[sco].block) != NIL ==> cd == old(cd) && mem == old(mem)
    {
      Unseal();
      ghost var m := M();
      SolidIs(sco);
      var t: nat;
      if cd[sco].block == NIL {
        t := brk;
        brk := brk + 1;
        mem := mem[t := seq(tab, _ => sco)];
        cd := cd[sco := cd[sco].(block := t)];
      } else {
        t := cd[sco].block as nat;
      }
      tptr := tptr[b := t];
      rows := rows[b := seq(tab, _ => sco)];
      SolidTight(m, m.(rows := rows, tptr := tptr, mem := m.mem[t := seq(tab, _ => sco)], cd := m.cd[sco := m.cd[sco].(block := t)]), b, sco, t);
      assert mem == m.mem[t := seq(tab, _ => sco)] && cd == m.cd[sco := m.cd[sco].(block := t)];
      Seal();
    }

    lemma SolidIs(co: nat)
      requires Valid() && Real(co)
      ensures cd[co].block == NIL || (cd[co].block >= 0 && cd[co].block in mem)
    {
      Unseal();
      LoosenMap(M());
      assert cd[co].block != NIL ==> SolidOk(tab, cd[co], co, mem);
    }
  }

  /** A run of one color in row b has become sco, and the counts with it. */
  lemma RunCounted(m: Cm, m': Cm, b: nat, i: nat, j: nat, co: nat, sco: nat)
    requires Counted(m) && b < |m.rows| && i <= j <= |m.rows[b]| && (forall k | i <= k < j :: m.rows[b][k] == co)
    requires co < |m.cd| && sco < |m.cd|
    requires m'.rows == m.rows[b := RunTo(m.rows[b], i, j, sco)] && m'.max == m.max && |m'.cd| == |m.cd|
    requires forall x | 0 <= x < |m.cd| :: m'.cd[x].free == m.cd[x].free && m'.cd[x].pseudo == m.cd[x].pseudo
                                          && m'.cd[x].nchrs == Shifted(m.cd, co, sco, j - i)[x].nchrs
    ensures Counted(m')
  {
    forall x: nat | IsReal(m'.cd, m'.max, x)
      ensures m'.cd[x].nchrs == Count(m'.rows, x)
    {
      assert IsReal(m.cd, m.max, x);
      CountSet(m.rows, b, RunTo(m.rows[b], i, j, sco), x);
      CountRun(m.rows[b], i, j, co, sco, x);
    }
  }

  /** A row changed in a private block. */
  lemma RowTight(m: Cm, m': Cm, b: nat, row: seq<nat>, sco: nat)
    requires TightMap(m) && b < |m.tptr| && b < |m.rows| && |row| == m.tab && Private(m, b, m.tptr[b]) && IsReal(m.cd, m.max, sco)
    requires forall k | 0 <= k < |row| :: row[k] == sco || (k < |m.rows[b]| && row[k] == m.rows[b][k])
    requires m' == m.(rows := m.rows[b := row], mem := m.mem[m.tptr[b] := row])
    ensures TightMap(m')
  {
    LoosenMap(m);
    forall k | 0 <= k < |row|
      ensures IsReal(m.cd, m.max, row[k])
    {
      assert k < |m.rows[b]| ==> IsReal(m.cd, m.max, m.rows[b][k]);
    }
    ChangedSound(m, m', b, row, m.tptr[b]);
  }

  /** Row b now is the solid block t of color v. */
  lemma SolidTight(m: Cm, m': Cm, b: nat, v: nat, t: nat)
    requires TightMap(m) && b < |m.tptr| && b < |m.rows| && IsReal(m.cd, m.max, v)
    requires if m.cd[v].block == NIL then t !in m.mem else m.cd[v].block == t
    requires m' == m.(rows := m.rows[b := seq(m.tab, _ => v)], tptr := m.tptr[b := t], mem := m.mem[t := seq(m.tab, _ => v)],
                      cd := m.cd[v := m.cd[v].(block := t)])
    ensures TightMap(m') && (m.cd[v].block == t ==> t in m.mem && m.mem[t] == seq(m.tab, _ => v))
  {
    LoosenMap(m);
    var row := seq(m.tab, _ => v);
    assert m.cd[v].block != NIL ==> SolidOk(m.tab, m.cd[v], v, m.mem) && m.mem[m.cd[v].block] == row;
    ChangedSound(m, m', b, row, t);
  }

  /** Flag co as free; lower max and shorten the free chain, or put co on it. */
  method Retire(ghost m: Cm, cd0: seq<ColorDesc>, max0: nat, free0: int, co: nat)
    returns (cd: seq<ColorDesc>, max: nat, free: int, ghost chain: seq<nat>)
    requires TightMap(m) && IsReal(m.cd, m.max, co) && co != WHITE && !m.cd[WHITE].free
    requires cd0 == m.cd && max0 == m.max && free0 == m.free
    ensures FreeOk(cd, max, free, chain)
    ensures |cd| == |m.cd| && max <= m.max && cd[co].free && cd[co].block == NIL
    ensures forall x: nat | x <= m.max && x != co && !m.cd[x].free :: cd[x] == m.cd[x] && x <= max
    ensures forall x: nat | x <= m.max && x != co && m.cd[x].free :: cd[x].free && cd[x].block == m.cd[x].block
  {
    cd, max, free, chain := cd0[co := cd0[co].(free := true, block := NIL)], max0, free0, m.chain;
    if co == max {
      max := HighestUsed(cd, max);
      ShortFree(m, cd, co);
      cd, free, chain := Trim(cd, free, max, m.max, chain);
      TrimmedFree(m, m.(cd := cd, max := max, free := free, chain := chain), co);
    } else {
      cd := cd[co := cd[co].(sub := free)];
      free := co;
      chain := [co] + chain;
      PushedFree(m, m.(cd := cd, free := free, chain := chain), co);
    }
  }

  /** The highest color in use (the first half of `freecolor`). */
  method HighestUsed(cd: seq<ColorDesc>, max0: nat) returns (max: nat)
    requires max0 < |cd|
    ensures max <= max0 && (max == WHITE || !cd[max].free) && forall x: nat | max < x <= max0 :: cd[x].free
  {
    max := max0;
    while max > WHITE && cd[max].free
      invariant max <= max0 && forall x: nat | max < x <= max0 :: cd[x].free
    {
      max := max - 1;
    }
  }

  /** Take what lies past max off the free chain (the second half of `freecolor`). */
  method Trim(cd0: seq<ColorDesc>, free0: int, max: nat, ghost top: nat, ghost chain0: seq<nat>)
    returns (cd: seq<ColorDesc>, free: int, ghost chain: seq<nat>)
    requires top < |cd0| && LinkedFree(cd0, top, chain0) && free0 == Head(chain0)
    ensures LinkedFree(cd, top, chain) && free == Head(chain) && (forall i | 0 <= i < |chain| :: chain[i] <= max)
    ensures forall i | 0 <= i < |chain0| && chain0[i] <= max :: chain0[i] in chain
    ensures |cd| == |cd0| && forall x | 0 <= x < |cd| :: cd[x] == cd0[x] || (cd0[x].free && cd[x] == cd0[x].(sub := cd[x].sub))
  {
    cd, free, chain := cd0, free0, chain0;
    while free > max
      invariant LinkedFree(cd, top, chain) && free == Head(chain)
      invariant forall x | x in chain0 && x <= max :: x in chain
      decreases |chain|
    {
      LinkedTail(cd, top, chain);
      assert chain == [chain[0]] + chain[1..];
      free := cd[free].sub;
      chain := chain[1..];
    }
    if free > 0 {
      assert chain == chain[..1] + chain[1..];
      LinkedTail(cd, top, chain);
      cd, chain := TrimRest(cd, free, max, top, chain);
    } else {
      assert [] + chain == chain;
      RestEmpty(cd, top, [], chain);
    }
  }

  method TrimRest(cd0: seq<ColorDesc>, free: nat, max: nat, ghost top: nat, ghost chain0: seq<nat>)
    returns (cd: seq<ColorDesc>, ghost chain: seq<nat>)
    requires top < |cd0| && LinkedFree(cd0, top, chain0) && chain0 != [] && free == chain0[0] <= max
    ensures LinkedFree(cd, top, chain) && free == Head(chain) && chain != [] && (forall i | 0 <= i < |chain| :: chain[i] <= max)
    ensures forall x | x in chain0 && x <= max :: x in chain
    ensures |cd| == |cd0| && forall x | 0 <= x < |cd| :: cd[x] == cd0[x] || (cd0[x].free && cd[x] == cd0[x].(sub := cd[x].sub))
  {
    cd := cd0;
    LinkedTail(cd, top, chain0);
    var pco, nco := free, cd[free].sub;
    ghost var kept, rest := chain0[..1], chain0[1..];
    assert kept + rest == chain0;
    while nco > 0
      invariant kept != [] && kept[0] == free && pco == kept[|kept| - 1] && nco == Head(rest)
      invariant LinkedFree(cd, top, kept + rest) && forall i | 0 <= i < |kept| :: kept[i] <= max
      invariant forall x | x in chain0 && x <= max :: x in kept + rest
      invariant |cd| == |cd0| && forall x | 0 <= x < |cd| :: cd[x] == cd0[x] || (cd0[x].free && cd[x] == cd0[x].(sub := cd[x].sub))
      decreases |rest|
    {
      RestFacts(cd, top, kept, rest);
      if nco > max {
        Unlinked(cd, top, kept, rest);
        nco := cd[nco].sub;
        cd := cd[pco := cd[pco].(sub := nco)];
        assert kept + rest == kept + [rest[0]] + rest[1..];
        rest := rest[1..];
      } else {
        assert kept + rest == kept + [rest[0]] + rest[1..];
        pco := nco;
        nco := cd[pco].sub;
        kept, rest := kept + [rest[0]], rest[1..];
      }
    }
    RestEmpty(cd, top, kept, rest);
    chain := kept;
  }

  lemma RestFacts(cd: seq<ColorDesc>, top: nat, kept: seq<nat>, rest: seq<nat>)
    requires kept != [] && LinkedFree(cd, top, kept + rest) && Head(rest) > 0
    ensures rest != [] && rest[0] < |cd| && kept[|kept| - 1] < |cd| && cd[kept[|kept| - 1]].free
    ensures cd[rest[0]].sub == Head(rest[1..])
  {
    var all, n := kept + rest, |kept|;
    assert FreeAt(cd, top, all, n - 1) && FreeAt(cd, top, all, n) && all[n] == rest[0];
  }

  lemma RestEmpty(cd: seq<ColorDesc>, top: nat, kept: seq<nat>, rest: seq<nat>)
    requires LinkedFree(cd, top, kept + rest) && Head(rest) <= 0
    ensures rest == [] && kept + rest == kept
  {
    assert |kept| < |kept + rest| ==> FreeAt(cd, top, kept + rest, |kept|);
  }

  /** What sub-coloring does to the descriptors: sco is co's open subcolor from now on, or co itself if that has a
      single character; nothing else changes but counts. */
  ghost predicate Subcolored(m: Cm, m': Cm, co: nat, sco: nat) {
    && co <= m.max < |m.cd| && m.max <= m'.max < |m'.cd| && |m.cd| <= |m'.cd| && sco <= m'.max
    && (m'.max == m.max || sco == m'.max == m.max + 1)
    && (if m.cd[co].sub != NOSUB then m.cd[co].sub == sco
        else if m.cd[co].nchrs == 1 then sco == co
        else Vacant(m, sco) && sco != co && m'.cd[sco].sub == sco && !m'.cd[sco].free && !m'.cd[sco].pseudo)
    && (m'.cd[co].sub == if m.cd[co].sub == NOSUB && m.cd[co].nchrs == 1 then NOSUB else sco)
    && (m'.cd[co].free == m.cd[co].free && m'.cd[co].pseudo == m.cd[co].pseudo)
    && (sco == co ==> m'.cd[co].nchrs == m.cd[co].nchrs)
    && forall x: nat | x <= m.max && x != co && !Fresh(m, sco, x) ::
         && m'.cd[x].sub == m.cd[x].sub && m'.cd[x].free == m.cd[x].free && m'.cd[x].pseudo == m.cd[x].pseudo
         && (x != sco ==> m'.cd[x].nchrs == m.cd[x].nchrs)
  }

  /** Counts of co and sco may change, and blocks. */
  lemma SubcoloredOn(m: Cm, m1: Cm, m': Cm, co: nat, sco: nat)
    requires Subcolored(m, m1, co, sco) && m'.max == m1.max && |m'.cd| == |m1.cd|
    requires forall x | 0 <= x < |m1.cd| :: m'.cd[x] == m1.cd[x].(block := m'.cd[x].block, nchrs := m'.cd[x].nchrs)
    requires forall x | 0 <= x < |m1.cd| && (sco == co || (x != co && x != sco)) :: m'.cd[x].nchrs == m1.cd[x].nchrs
    ensures Subcolored(m, m', co, sco)
  {}

  /** sco was not in use before, and is x. */
  predicate Fresh(m: Cm, sco: nat, x: nat) {
    x == sco && x < |m.cd| && m.cd[x].free
  }

  lemma {:induction false} AllWhite(tab: nat, rows: Rows)
    requires forall b | 0 <= b < |rows| :: |rows[b]| == tab && IsSolid(rows[b], WHITE)
    ensures Count(rows, WHITE) == tab * |rows|
    decreases |rows|
  {
    if rows != [] {
      AllWhite(tab, rows[..|rows| - 1]);
      CountRowSolid(rows[|rows| - 1], WHITE, WHITE);
      assert tab * |rows| == tab * (|rows| - 1) + tab;
    }
  }

  /** A block that is not solid, or has just been copied, is nobody else's. */
  lemma OwnBlock(m: Cm, b: nat, t: nat, row: seq<nat>)
    requires Sound(m) && b < |m.tptr| && row == m.rows[b]
    requires if Shareable(m.rows, m.tptr, m.cd, b) then t !in m.mem else t == m.tptr[b]
    ensures Private(m, b, t)
  {
    forall x: nat | x <= m.max
      ensures m.cd[x].block != t
    {
      assert m.cd[x].block != NIL ==> SolidOk(m.tab, m.cd[x], x, m.mem);
    }
  }

  /** One character's color set, in a block of its own. */
  lemma PutTight(m: Cm, m': Cm, b: nat, i: nat, co: nat, t: nat, row: seq<nat>)
    requires TightMap(m) && b < |m.tptr| && b < |m.rows| && row == m.rows[b] && IsReal(m.cd, m.max, co) && i < |row|
    requires if row != [] && row[0] < |m.cd| && m.cd[row[0]].block == m.tptr[b] then t !in m.mem else t == m.tptr[b]
    requires m' == m.(rows := Put(m.rows, b, i, co), tptr := m.tptr[b := t], mem := m.mem[t := SetAt(row, i, co)])
    ensures TightMap(m')
  {
    LoosenMap(m);
    OwnBlock(m, b, t, row);
    var r := SetAt(row, i, co);
    forall k | 0 <= k < |r|
      ensures IsReal(m.cd, m.max, r[k])
    {
      assert IsReal(m.cd, m.max, m.rows[b][k]);
    }
    ChangedSound(m, m', b, r, t);
  }

  lemma FreeFacts(m: Cm, co: nat)
    requires TightMap(m) && IsReal(m.cd, m.max, co)
    ensures m.cd[co].block == NIL || (m.cd[co].block >= 0 && m.cd[co].block in m.mem)
    ensures !m.cd[WHITE].free && m.max < |m.cd|
  {
    LoosenMap(m);
    assert m.cd[co].block != NIL ==> SolidOk(m.tab, m.cd[co], co, m.mem);
  }

  lemma ShortFree(m: Cm, cd: seq<ColorDesc>, co: nat)
    requires TightMap(m) && IsReal(m.cd, m.max, co) && cd == m.cd[co := m.cd[co].(free := true, block := NIL)]
    ensures LinkedFree(cd, m.max, m.chain) && m.free == Head(m.chain)
  {
    LoosenMap(m);
    forall i: nat | i < |m.chain|
      ensures FreeAt(cd, m.max, m.chain, i)
    {
      assert FreeAt(m.cd, m.max, m.chain, i);
    }
  }

  /** After trimming, the chain is right for the lower max. */
  lemma TrimmedFree(m: Cm, m': Cm, co: nat)
    requires TightMap(m) && IsReal(m.cd, m.max, co) && co == m.max && co != WHITE && m'.max < m.max && |m'.cd| == |m.cd|
    requires LinkedFree(m'.cd, m.max, m'.chain) && m'.free == Head(m'.chain) && (forall i | 0 <= i < |m'.chain| :: m'.chain[i] <= m'.max)
    requires forall i | 0 <= i < |m.chain| && m.chain[i] <= m'.max :: m.chain[i] in m'.chain
    requires forall x: nat | x < m.max :: m'.cd[x] == m.cd[x] || (m.cd[x].free && m'.cd[x] == m.cd[x].(sub := m'.cd[x].sub))
    requires m'.max == WHITE || !m'.cd[m'.max].free
    ensures FreeOk(m'.cd, m'.max, m'.free, m'.chain)
  {
    LoosenMap(m);
    forall i: nat | i < |m'.chain|
      ensures FreeAt(m'.cd, m'.max, m'.chain, i)
    {
      assert FreeAt(m'.cd, m.max, m'.chain, i);
    }
    forall x: nat | x <= m'.max && m'.cd[x].free
      ensures x in m'.chain
    {
      assert x in m.chain;
    }
  }

  lemma PushedFree(m: Cm, m': Cm, co: nat)
    requires TightMap(m) && IsReal(m.cd, m.max, co) && co != m.max && co != WHITE && m'.max == m.max
    requires m'.cd == m.cd[co := m.cd[co].(free := true, block := NIL, sub := m.free)]
    requires m'.free == co && m'.chain == [co] + m.chain
    ensures FreeOk(m'.cd, m'.max, m'.free, m'.chain)
  {
    LoosenMap(m);
    forall i: nat | i < |m'.chain|
      ensures FreeAt(m'.cd, m'.max, m'.chain, i)
      ensures i > 0 ==> m'.chain[i] != co
    {
      if i > 0 {
        assert FreeAt(m.cd, m.max, m.chain, i - 1);
        assert m'.chain[i] == m.chain[i - 1];
      }
    }
  }

  lemma FreedTight(m: Cm, m': Cm, co: nat)
    requires TightMap(m) && Freed(m, m', co) && co != WHITE && Counted(m) && m.cd[co].nchrs == 0 && IsReal(m.cd, m.max, co)
    requires m.cd[co].sub == NOSUB && FreeOk(m'.cd, m'.max, m'.free, m'.chain)
    ensures TightMap(m') && Counted(m')
  {
    LoosenMap(m);
    FreedSound(m, m', co);
  }

  ghost function White(tab: nat, size: nat): Rows {
    seq(size, _ => seq(tab, _ => WHITE))
  }

  lemma WhiteSound(m: Cm, size: nat)
    requires m.tab > 0 && |m.tptr| == size && m.cd == [ColorDesc(m.tab * size, NOSUB, false, false, 0)]
    requires m.rows == White(m.tab, size) && m.mem == map[0 := seq(m.tab, _ => WHITE)]
    requires m.max == 0 && m.free == 0 && m.chain == [] && forall b | 0 <= b < size :: m.tptr[b] == 0
    ensures TightMap(m) && Counted(m)
  {
    AllWhite(m.tab, m.rows);
  }

  lemma WhiteAt(tab: nat, size: nat)
    requires tab > 0
    ensures forall c: nat | c / tab < size :: ColorAt(tab, White(tab, size), c) == WHITE
  {}

  lemma PseudoTight(m0: Cm, m: Cm, co: nat)
    requires TightMap(m0) && TightMap(m) && Counted(m) && Vacant(m0, co) && m0.rows == m.rows
    requires co <= m.max < |m.cd| && m.cd[co] == BLANK && 0 < co
    ensures var m' := m.(cd := m.cd[co := BLANK.(nchrs := 1, pseudo := true)]); TightMap(m') && Counted(m')
  {
    LoosenMap(m0);
    LoosenMap(m);
    PseudoSound(m0, m, co);
  }

  lemma PseudoSound(m0: Cm, m: Cm, co: nat)
    requires Sound(m) && Counted(m) && RowsReal(m0.rows, m0.cd, m0.max) && Vacant(m0, co) && m0.rows == m.rows
    requires co <= m.max && m.cd[co] == BLANK && 0 < co
    ensures var m' := m.(cd := m.cd[co := BLANK.(nchrs := 1, pseudo := true)]); Sound(m') && Counted(m')
  {
    var m' := m.(cd := m.cd[co := BLANK.(nchrs := 1, pseudo := true)]);
    forall b, i | 0 <= b < |m.rows| && 0 <= i < |m.rows[b]|
      ensures IsReal(m'.cd, m'.max, m.rows[b][i])
    {
      assert IsReal(m0.cd, m0.max, m.rows[b][i]) && IsReal(m.cd, m.max, m.rows[b][i]);
    }
    PseudoTree(m, m', co);
    PseudoSubs(m.cd, m'.cd, m.max, co);
    SubbedFree(m.cd, m'.cd, m.max, m.free, m.chain);
    forall x: nat | IsReal(m'.cd, m'.max, x)
      ensures IsReal(m.cd, m.max, x) && m'.cd[x] == m.cd[x]
    {}
  }

  lemma PseudoTree(m: Cm, m': Cm, co: nat)
    requires GoodTree(m) && co <= m.max && m.cd[co] == BLANK && 0 < co
    requires m' == m.(cd := m.cd[co := BLANK.(nchrs := 1, pseudo := true)])
    ensures TreeOk(m'.tab, m'.rows, m'.tptr, m'.mem) && SolidsOk(m'.tab, m'.cd, m'.max, m'.mem) && SharingOk(m'.rows, m'.tptr, m'.cd)
  {
    forall x: nat | x <= m'.max && m'.cd[x].block != NIL
      ensures SolidOk(m'.tab, m'.cd[x], x, m'.mem)
    {
      assert SolidOk(m.tab, m.cd[x], x, m.mem);
    }
    forall b, d | 0 <= b < |m.rows| && 0 <= d < |m.rows| && b != d && m.tptr[b] == m.tptr[d]
      ensures Shareable(m'.rows, m'.tptr, m'.cd, b)
    {
      assert Shareable(m.rows, m.tptr, m.cd, b);
    }
  }

  lemma PseudoSubs(cd: seq<ColorDesc>, cd': seq<ColorDesc>, max: nat, co: nat)
    requires SubsOk(cd, max) && co <= max && cd[co] == BLANK && cd' == cd[co := BLANK.(nchrs := 1, pseudo := true)]
    ensures SubsOk(cd', max)
  {
    forall s: nat | s <= max && IsOpen(cd', s)
      ensures IsReal(cd', max, s) && HasParent(cd', max, s)
    {
      assert IsOpen(cd, s) && HasParent(cd, max, s);
      var p: nat :| p <= max && IsParent(cd, p) && cd[p].sub == s;
      assert IsParent(cd', p);
    }
    forall p: nat | p <= max && IsParent(cd', p)
      ensures IsReal(cd', max, p) && cd'[p].sub >= 0 && IsReal(cd', max, cd'[p].sub) && IsOpen(cd', cd'[p].sub)
    {
      assert IsParent(cd, p);
    }
  }

  /** One character has moved from its color to sco, and the counts with it. */
  lemma OneCounted(m: Cm, m': Cm, b: nat, i: nat, sco: nat)
    requires Counted(m) && b < |m.rows| && i < |m.rows[b]| && m'.rows == Put(m.rows, b, i, sco)
    requires m.rows[b][i] < |m.cd| && sco < |m.cd| && sco != m.rows[b][i]
    requires m'.cd == Shifted(m.cd, m.rows[b][i], sco, 1) && m'.max == m.max
    ensures Counted(m')
  {
    forall x: nat | IsReal(m'.cd, m'.max, x)
      ensures m'.cd[x].nchrs == Count(m'.rows, x)
    {
      assert IsReal(m.cd, m.max, x);
      CountSet(m.rows, b, SetAt(m.rows[b], i, sco), x);
      CountRowSet(m.rows[b], i, sco, x);
    }
  }
}