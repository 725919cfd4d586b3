/** Color descriptors, color blocks and what holds of them (regguts.h, regc_color.c), on plain values. A map is seen
    as its rows, one per block of characters. */
module Colors {
  const NIL := -1
  const NOSUB := -1
  const WHITE := 0

  /** Number of characters, open subcolor or free-chain link, flags, and address of the solid block. */
  datatype ColorDesc = ColorDesc(nchrs: int, sub: int, free: bool, pseudo: bool, block: int)

  type Rows = seq<seq<nat>>

  // ----- counting

  function One(b: bool): nat {
    if b then 1 else 0
  }

  function CountRow(row: seq<nat>, co: nat): nat {
    if row == [] then 0 else CountRow(row[..|row| - 1], co) + One(row[|row| - 1] == co)
  }

  /** The number of characters of a color. */
  function Count(rows: Rows, co: nat): nat {
    if rows == [] then 0 else Count(rows[..|rows| - 1], co) + CountRow(rows[|rows| - 1], co)
  }

  lemma {:induction false} CountRowSet(row: seq<nat>, i: nat, v: nat, co: nat)
    requires i < |row|
    ensures CountRow(row[i := v], co) == CountRow(row, co) - One(row[i] == co) + One(v == co)
    decreases |row|
  {
    var n := |row| - 1;
    if i < n {
      CountRowSet(row[..n], i, v, co);
      assert row[i := v][..n] == row[..n][i := v];
    } else {
      assert row[i := v][..n] == row[..n];
    }
  }

  lemma {:induction false} CountSet(rows: Rows, b: nat, row: seq<nat>, co: nat)
    requires b < |rows|
    ensures Count(rows[b := row], co) == Count(rows, co) - CountRow(rows[b], co) + CountRow(row, co)
    decreases |rows|
  {
    var n := |rows| - 1;
    if b < n {
      CountSet(rows[..n], b, row, co);
      assert rows[b := row][..n] == rows[..n][b := row];
    } else {
      assert rows[b := row][..n] == rows[..n];
    }
  }

  predicate IsSolid(row: seq<nat>, v: nat) {
    forall i | 0 <= i < |row| :: row[i] == v
  }

  lemma {:induction false} CountRowSolid(row: seq<nat>, v: nat, co: nat)
    requires IsSolid(row, v)
    ensures CountRow(row, co) == if v == co then |row| else 0
    decreases |row|
  {
    if row != [] {
      CountRowSolid(row[..|row| - 1], v, co);
    }
  }

  lemma {:induction false} CountRowHas(row: seq<nat>, i: nat)
    requires i < |row|
    ensures CountRow(row, row[i]) >= 1
    ensures forall j | 0 <= j < |row| && j != i && row[j] == row[i] :: CountRow(row, row[i]) >= 2
    decreases |row|
  {
    var n := |row| - 1;
    if i < n {
      CountRowHas(row[..n], i);
    }
    forall j | 0 <= j < n && i == n && row[j] == row[i]
      ensures CountRow(row[..n], row[i]) >= 1
    {
      CountRowHas(row[..n], j);
    }
  }

  lemma {:induction false} CountHas(rows: Rows, b: nat)
    requires b < |rows|
    ensures forall co: nat :: Count(rows, co) >= CountRow(rows[b], co)
    ensures forall d, co: nat | 0 <= d < |rows| && d != b :: Count(rows, co) >= CountRow(rows[b], co) + CountRow(rows[d], co)
    decreases |rows|
  {
    var n := |rows| - 1;
    if b < n {
      CountHas(rows[..n], b);
    }
    forall d, co: nat | 0 <= d < n && b == n
      ensures Count(rows[..n], co) >= CountRow(rows[d], co)
    {
      CountHas(rows[..n], d);
    }
  }

  /** A color with one character is the color of just that one. */
  lemma CountOne(rows: Rows, b: nat, i: nat, d: nat, j: nat)
    requires b < |rows| && i < |rows[b]| && d < |rows| && j < |rows[d]|
    requires Count(rows, rows[b][i]) == 1 && rows[d][j] == rows[b][i]
    ensures b == d && i == j
  {
    CountHas(rows, b);
    CountRowHas(rows[b], i);
    CountRowHas(rows[d], j);
  }

  lemma CountSome(rows: Rows, b: nat, i: nat)
    requires b < |rows| && i < |rows[b]|
    ensures Count(rows, rows[b][i]) >= 1
  {
    CountHas(rows, b);
    CountRowHas(rows[b], i);
  }

  lemma {:induction false} CountRowNone(row: seq<nat>, co: nat)
    requires co !in row
    ensures CountRow(row, co) == 0
    decreases |row|
  {
    if row != [] {
      CountRowNone(row[..|row| - 1], co);
    }
  }

  lemma {:induction false} CountNone(rows: Rows, co: nat)
    requires forall b | 0 <= b < |rows| :: co !in rows[b]
    ensures Count(rows, co) == 0
    decreases |rows|
  {
    if rows != [] {
      CountNone(rows[..|rows| - 1], co);
      CountRowNone(rows[|rows| - 1], co);
    }
  }

  function SetAt(row: seq<nat>, i: nat, v: nat): seq<nat> {
    if i < |row| then row[i := v] else row
  }

  /** The rows with one character's color changed. */
  function Put(rows: Rows, b: nat, i: nat, v: nat): Rows {
    if b < |rows| then rows[b := SetAt(rows[b], i, v)] else rows
  }

  /** The row with the places from i up to j set to v. */
  function RunTo(row: seq<nat>, i: nat, j: nat, v: nat): (r: seq<nat>)
    requires i <= j <= |row|
    ensures |r| == |row| && forall k | 0 <= k < |row| :: r[k] == if i <= k < j then v else row[k]
  {
    seq(|row|, k requires 0 <= k < |row| => if i <= k < j then v else row[k])
  }

  lemma {:induction false} CountRun(row: seq<nat>, i: nat, j: nat, co: nat, v: nat, x: nat)
    requires i <= j <= |row| && forall k | i <= k < j :: row[k] == co
    ensures CountRow(RunTo(row, i, j, v), x) == CountRow(row, x) + (j - i) * (One(x == v) - One(x == co))
    decreases j
  {
    if i == j {
      assert RunTo(row, i, j, v) == row;
    } else {
      var less := RunTo(row, i, j - 1, v);
      CountRun(row, i, j - 1, co, v, x);
      assert RunTo(row, i, j, v) == SetAt(less, j - 1, v);
      CountRowSet(less, j - 1, v, x);
    }
  }

  // ----- what holds of a color map

  ghost predicate IsReal(cd: seq<ColorDesc>, max: nat, x: nat) {
    x <= max < |cd| && !cd[x].free && !cd[x].pseudo
  }

  /** The tree of blocks holds the rows. */
  ghost predicate TreeOk(tab: nat, rows: Rows, tptr: seq<nat>, mem: map<nat, seq<nat>>) {
    && tab > 0 && |rows| == |tptr|
    && forall b | 0 <= b < |tptr| :: tptr[b] in mem && mem[tptr[b]] == rows[b] && |rows[b]| == tab
  }

  /** Solid blocks are solid, and belong to colors in use; WHITE always has one, the fill block. */
  ghost predicate SolidsOk(tab: nat, cd: seq<ColorDesc>, max: nat, mem: map<nat, seq<nat>>) {
    && max < |cd| && cd[WHITE].block != NIL && !cd[WHITE].free && !cd[WHITE].pseudo
    && forall co: nat | co <= max && cd[co].block != NIL :: SolidOk(tab, cd[co], co, mem)
  }

  ghost predicate SolidOk(tab: nat, d: ColorDesc, co: nat, mem: map<nat, seq<nat>>) {
    && !d.free && d.block >= 0 && d.block in mem
    && |mem[d.block]| == tab && IsSolid(mem[d.block], co)
  }

  /** The block of row b is the solid block of its color. */
  ghost predicate Shareable(rows: Rows, tptr: seq<nat>, cd: seq<ColorDesc>, b: nat)
    requires b < |rows| == |tptr|
  {
    rows[b] != [] && rows[b][0] < |cd| && cd[rows[b][0]].block == tptr[b]
  }

  /** Only solid blocks are shared. */
  ghost predicate SharingOk(rows: Rows, tptr: seq<nat>, cd: seq<ColorDesc>) {
    |rows| == |tptr| && forall b, d | 0 <= b < |rows| && 0 <= d < |rows| && b != d && tptr[b] == tptr[d] :: Shareable(rows, tptr, cd, b)
  }

  /** Characters have real colors. */
  ghost predicate RowsReal(rows: Rows, cd: seq<ColorDesc>, max: nat) {
    forall b, i | 0 <= b < |rows| && 0 <= i < |rows[b]| :: IsReal(cd, max, rows[b][i])
  }

  ghost predicate CountsOk(rows: Rows, cd: seq<ColorDesc>, max: nat) {
    forall co: nat | IsReal(cd, max, co) :: cd[co].nchrs == Count(rows, co)
  }

  /** p is the parent of an open subcolor. */
  predicate IsParent(cd: seq<ColorDesc>, p: nat)
    requires p < |cd|
  {
    !cd[p].free && cd[p].sub != NOSUB && cd[p].sub != p
  }

  predicate IsOpen(cd: seq<ColorDesc>, s: nat)
    requires s < |cd|
  {
    !cd[s].free && cd[s].sub == s
  }

  /** Open subcolors point to themselves, each has one parent, and both are real. */
  ghost predicate SubsOk(cd: seq<ColorDesc>, max: nat) {
    && max < |cd|
    && (forall p: nat | p <= max && IsParent(cd, p) ::
          IsReal(cd, max, p) && cd[p].sub >= 0 && IsReal(cd, max, cd[p].sub) && IsOpen(cd, cd[p].sub))
    && (forall p: nat, q: nat | p <= max && q <= max && IsParent(cd, p) && IsParent(cd, q) && cd[p].sub == cd[q].sub :: p == q)
    && forall s: nat | s <= max && IsOpen(cd, s) :: IsReal(cd, max, s) && HasParent(cd, max, s)
  }

  ghost predicate HasParent(cd: seq<ColorDesc>, max: nat, s: nat)
    requires max < |cd|
  {
    exists p: nat :: p <= max && IsParent(cd, p) && cd[p].sub == s
  }

  /** What follows a place in the free chain. */
  function Next(chain: seq<nat>, i: nat): int
    requires i < |chain|
  {
    if i + 1 < |chain| then chain[i + 1] else 0
  }

  ghost predicate FreeAt(cd: seq<ColorDesc>, max: nat, chain: seq<nat>, i: nat)
    requires i < |chain|
  {
    0 < chain[i] <= max < |cd| && cd[chain[i]].free && cd[chain[i]].sub == Next(chain, i)
  }

  /** The free chain: what is free up to max, each linked to the next by `sub`, 0 ending it. */
  ghost predicate FreeOk(cd: seq<ColorDesc>, max: nat, free: int, chain: seq<nat>) {
    && max < |cd| && !cd[max].free && !cd[WHITE].free
    && free == (if chain == [] then 0 else chain[0])
    && (forall i: nat | i < |chain| :: FreeAt(cd, max, chain, i))
    && (forall i, k | 0 <= i < k < |chain| :: chain[i] != chain[k])
    && forall x: nat | x <= max && cd[x].free :: x in chain
  }

  // ----- colors of characters

  /** Character c is in the alphabet. */
  predicate InAlphabet(tab: nat, rows: Rows, c: nat) {
    tab > 0 && c / tab < |rows| && |rows[c / tab]| == tab
  }

  /** The color of character c (GETCOLOR). */
  function ColorAt(tab: nat, rows: Rows, c: nat): nat {
    if InAlphabet(tab, rows, c) then rows[c / tab][c % tab] else 0
  }

  /** Each real color's count summed up to max. */
  function Total(cd: seq<ColorDesc>, max: int): int
    requires max < |cd|
  {
    if max < 0 then 0 else Total(cd, max - 1) + if cd[max].free || cd[max].pseudo then 0 else cd[max].nchrs
  }

  function CountUpTo(rows: Rows, max: int): int {
    if max < 0 then 0 else CountUpTo(rows, max - 1) + Count(rows, max)
  }

  function CountRowUpTo(row: seq<nat>, max: int): int {
    if max < 0 then 0 else CountRowUpTo(row, max - 1) + CountRow(row, max)
  }

  lemma {:induction false} RowUpTo(row: seq<nat>, max: int)
    ensures CountRowUpTo(row, max) ==
      if row == [] then 0 else CountRowUpTo(row[..|row| - 1], max) + One(row[|row| - 1] <= max)
    decreases max + 1
  {
    if max >= 0 {
      RowUpTo(row, max - 1);
    }
  }

  lemma {:induction false} RowAll(row: seq<nat>, max: nat)
    requires forall i | 0 <= i < |row| :: row[i] <= max
    ensures CountRowUpTo(row, max) == |row|
    decreases |row|
  {
    RowUpTo(row, max);
    if row != [] {
      RowAll(row[..|row| - 1], max);
    }
  }

  lemma {:induction false} UpTo(rows: Rows, max: int)
    ensures CountUpTo(rows, max) ==
      if rows == [] then 0 else CountUpTo(rows[..|rows| - 1], max) + CountRowUpTo(rows[|rows| - 1], max)
    decreases max + 1
  {
    if max >= 0 {
      UpTo(rows, max - 1);
    }
  }

  lemma {:induction false} AllCounted(tab: nat, rows: Rows, max: nat)
    requires forall b | 0 <= b < |rows| :: |rows[b]| == tab && forall i | 0 <= i < tab :: rows[b][i] <= max
    ensures CountUpTo(rows, max) == tab * |rows|
    decreases |rows|
  {
    UpTo(rows, max);
    if rows != [] {
      AllCounted(tab, rows[..|rows| - 1], max);
      RowAll(rows[|rows| - 1], max);
      assert tab * |rows| == tab * (|rows| - 1) + tab;
    }
  }

  lemma {:induction false} TotalCounts(rows: Rows, cd: seq<ColorDesc>, top: nat, max: int)
    requires top < |cd| && max <= top && CountsOk(rows, cd, top) && RowsReal(rows, cd, top)
    ensures Total(cd, max) == CountUpTo(rows, max)
    decreases max + 1
  {
    if max >= 0 {
      TotalCounts(rows, cd, top, max - 1);
      if cd[max].free || cd[max].pseudo {
        CountNone(rows, max);
      } else {
        assert IsReal(cd, top, max);
      }
    }
  }

  /** The counts of the real colors sum to the size of the alphabet. */
  lemma CountsSum(tab: nat, rows: Rows, cd: seq<ColorDesc>, max: nat)
    requires max < |cd| && CountsOk(rows, cd, max) && RowsReal(rows, cd, max)
    requires forall b | 0 <= b < |rows| :: |rows[b]| == tab
    ensures Total(cd, max) == tab * |rows|
  {
    TotalCounts(rows, cd, max, max);
    forall b, i | 0 <= b < |rows| && 0 <= i < tab
      ensures rows[b][i] <= max
    {
      assert IsReal(cd, max, rows[b][i]);
    }
    AllCounted(tab, rows, max);
  }
}
