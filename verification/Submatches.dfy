/** What the tree of subexpressions means for a match (regexec.c): the nodes a match visits, and its captures. */
module Submatches {
  import opened Cnfas

  datatype Op = Terminal | Alternation | Concatenation | Capturing

  /** A node of the subexpression tree; an alternation is a chain of `Alternation` nodes along `right`, one branch in
      each `left`. */
  datatype Subre = Null | Subre(op: Op, shorter: bool, subno: nat, cnfa: Cnfa, left: Subre, right: Subre)

  datatype Regmatch = Regmatch(so: int, eo: int)

  const UNSET := Regmatch(-1, -1)

  ghost function JobOf(v: Vars, cnfa: Cnfa): Job {
    Job(v, cnfa, Oracle(v, |v.lacons|))
  }

  /** The subexpression t matches the text from b to e. */
  ghost predicate MatchedBy(v: Vars, t: Subre, b: nat, e: nat) {
    t.Subre? && JobOf(v, t.cnfa).Matches(b, e)
  }

  /** Some branch of the chain matches. */
  ghost predicate AltMatches(v: Vars, t: Subre, b: nat, e: nat) {
    t.Subre? && (MatchedBy(v, t.left, b, e) || AltMatches(v, t.right, b, e))
  }

  /** A midpoint that works for a concatenation. */
  ghost predicate Splits(v: Vars, t: Subre, b: nat, mid: nat, e: nat) {
    t.Subre? && MatchedBy(v, t.left, b, mid) && MatchedBy(v, t.right, mid, e)
  }

  /** What compilation promises of a tree without back references: the NFA of each node says what its children say. */
  ghost predicate WfTree(v: Vars, t: Subre)
    decreases t, 1
  {
    && t.Subre? && JobOf(v, t.cnfa).Wf(|v.lacons|)
    && match t.op
       case Terminal => t.left.Null? && t.right.Null?
       case Capturing =>
         && t.subno > 0 && WfTree(v, t.left) && t.right.Null?
         && forall b, e :: MatchedBy(v, t, b, e) <==> MatchedBy(v, t.left, b, e)
       case Concatenation =>
         && WfTree(v, t.left) && WfTree(v, t.right)
         && forall b, e :: MatchedBy(v, t, b, e) <==> exists mid :: Splits(v, t, b, mid, e)
       case Alternation =>
         && WfChain(v, t)
         && forall b, e :: MatchedBy(v, t, b, e) <==> AltMatches(v, t, b, e)
  }

  /** The branches of an alternation. */
  ghost predicate WfChain(v: Vars, t: Subre)
    decreases t, 0
  {
    t.Subre? && t.op == Alternation && WfTree(v, t.left) && (t.right.Null? || WfChain(v, t.right))
  }

  // ----- what dissecting a match means

  /** The text from so to eo belongs to parenthesized subexpression `sub`. */
  datatype Capture = Capture(sub: Subre, so: nat, eo: nat)

  /** The midpoint to use: the greatest that works, the least if the left side prefers shorter. */
  ghost predicate IsMidpoint(v: Vars, t: Subre, b: nat, mid: nat, e: nat) {
    && Splits(v, t, b, mid, e) && b <= mid <= e
    && forall m: nat :: Splits(v, t, b, m, e) && b <= m <= e ==> if t.left.shorter then mid <= m else m <= mid
  }

  lemma {:induction false} GreatestMidpoint(v: Vars, t: Subre, b: nat, e: nat, mid: nat, hi: nat) returns (best: nat)
    requires t.Subre? && t.left.Subre? && !t.left.shorter && Splits(v, t, b, mid, e) && b <= mid <= hi <= e
    ensures Splits(v, t, b, best, e) && b <= best <= hi
    ensures forall m: nat :: Splits(v, t, b, m, e) && b <= m <= hi ==> m <= best
    decreases hi
  {
    if Splits(v, t, b, hi, e) {
      best := hi;
    } else {
      best := GreatestMidpoint(v, t, b, e, mid, hi - 1);
    }
  }

  lemma {:induction false} LeastMidpoint(v: Vars, t: Subre, b: nat, e: nat, mid: nat, lo: nat) returns (best: nat)
    requires t.Subre? && t.left.Subre? && Splits(v, t, b, mid, e) && b <= lo <= mid <= e
    ensures Splits(v, t, b, best, e) && lo <= best <= e
    ensures forall m: nat :: Splits(v, t, b, m, e) && lo <= m <= e ==> best <= m
    decreases e - lo
  {
    if Splits(v, t, b, lo, e) {
      best := lo;
    } else {
      best := LeastMidpoint(v, t, b, e, mid, lo + 1);
    }
  }

  lemma SplitsWithin(v: Vars, t: Subre, b: nat, mid: nat, e: nat)
    requires Splits(v, t, b, mid, e)
    ensures b <= mid <= e <= |v.text|
  {
    assert JobOf(v, t.left.cnfa).Matches(b, mid) && JobOf(v, t.right.cnfa).Matches(mid, e);
  }

  lemma MidpointExists(v: Vars, t: Subre, b: nat, e: nat)
    requires WfTree(v, t) && t.op == Concatenation && MatchedBy(v, t, b, e)
    ensures exists mid :: IsMidpoint(v, t, b, mid, e)
  {
    var mid :| Splits(v, t, b, mid, e);
    SplitsWithin(v, t, b, mid, e);
    var best;
    if t.left.shorter {
      best := LeastMidpoint(v, t, b, e, mid, b);
    } else {
      best := GreatestMidpoint(v, t, b, e, mid, e);
    }
    assert IsMidpoint(v, t, b, best, e);
  }

  ghost function Midpoint(v: Vars, t: Subre, b: nat, e: nat): (mid: nat)
    requires WfTree(v, t) && t.op == Concatenation && MatchedBy(v, t, b, e)
    ensures IsMidpoint(v, t, b, mid, e)
  {
    MidpointExists(v, t, b, e);
    var mid :| IsMidpoint(v, t, b, mid, e);
    mid
  }

  /** Both sides match at mid, and of the places where they do it is the last, or the first if the left side prefers
      shorter. */
  ghost predicate BestSplit(v: Vars, t: Subre, b: nat, mid: nat, e: nat) {
    && t.Subre? && t.left.Subre? && b <= mid <= e && MatchedBy(v, t.left, b, mid) && MatchedBy(v, t.right, mid, e)
    && (t.left.shorter ==> forall m: nat | b <= m < mid :: !(MatchedBy(v, t.left, b, m) && MatchedBy(v, t.right, m, e)))
    && (!t.left.shorter ==> forall m: nat | mid < m <= e :: !(MatchedBy(v, t.left, b, m) && MatchedBy(v, t.right, m, e)))
  }

  lemma MidpointIsBest(v: Vars, t: Subre, b: nat, e: nat)
    requires WfTree(v, t) && t.op == Concatenation && MatchedBy(v, t, b, e)
    ensures BestSplit(v, t, b, Midpoint(v, t, b, e), e)
  {
    var mid := Midpoint(v, t, b, e);
    forall m: nat | b <= m <= e && MatchedBy(v, t.left, b, m) && MatchedBy(v, t.right, m, e)
      ensures if t.left.shorter then mid <= m else m <= mid
    {
      assert Splits(v, t, b, m, e);
    }
  }

  /** The first branch that matches. */
  ghost function Branch(v: Vars, t: Subre, b: nat, e: nat): (u: Subre)
    requires WfChain(v, t) && AltMatches(v, t, b, e)
    ensures u < t && WfTree(v, u) && MatchedBy(v, u, b, e)
  {
    if MatchedBy(v, t.left, b, e) then t.left
    else
      assert AltMatches(v, t.right, b, e);
      Branch(v, t.right, b, e)
  }

  /** The captures of a match, outer ones first, otherwise from left to right. */
  ghost function Captures(v: Vars, t: Subre, b: nat, e: nat): seq<Capture>
    requires WfTree(v, t) && MatchedBy(v, t, b, e)
    decreases t
  {
    match t.op
    case Terminal => []
    case Capturing => [Capture(t, b, e)] + Captures(v, t.left, b, e)
    case Concatenation =>
      var mid := Midpoint(v, t, b, e);
      Captures(v, t.left, b, mid) + Captures(v, t.right, mid, e)
    case Alternation => Captures(v, Branch(v, t, b, e), b, e)
  }

  /** The match vector after setting these captures in order; those it has no room for are dropped. */
  ghost function Written(pmatch: seq<Regmatch>, caps: seq<Capture>): (r: seq<Regmatch>)
    ensures |r| == |pmatch|
    decreases caps
  {
    if caps == [] then pmatch
    else
      var c := caps[0];
      Written(if c.sub.Subre? && c.sub.subno < |pmatch| then pmatch[c.sub.subno := Regmatch(c.so, c.eo)] else pmatch, caps[1..])
  }

  lemma {:induction false} WrittenTwice(pmatch: seq<Regmatch>, c1: seq<Capture>, c2: seq<Capture>)
    ensures Written(pmatch, c1 + c2) == Written(Written(pmatch, c1), c2)
    decreases c1
  {
    if c1 == [] {
      assert c1 + c2 == c2;
    } else {
      var c := c1[0];
      assert (c1 + c2)[1..] == c1[1..] + c2;
      WrittenTwice(if c.sub.Subre? && c.sub.subno < |pmatch| then pmatch[c.sub.subno := Regmatch(c.so, c.eo)] else pmatch, c1[1..], c2);
    }
  }

  /** Every capture lies within the match and is matched by its own subexpression. */
  lemma {:induction false} CapturesWithin(v: Vars, t: Subre, b: nat, e: nat)
    requires WfTree(v, t) && MatchedBy(v, t, b, e)
    ensures forall c | c in Captures(v, t, b, e) ::
      b <= c.so <= c.eo <= e && c.sub.Subre? && c.sub.op == Capturing && c.sub.subno > 0 && MatchedBy(v, c.sub, c.so, c.eo)
    decreases t
  {
    match t.op
    case Terminal =>
    case Capturing =>
      CapturesWithin(v, t.left, b, e);
    case Concatenation =>
      var mid := Midpoint(v, t, b, e);
      CapturesWithin(v, t.left, b, mid);
      CapturesWithin(v, t.right, mid, e);
    case Alternation =>
      CapturesWithin(v, Branch(v, t, b, e), b, e);
  }

  /** Of two captures the later one lies inside the earlier one or starts where that has ended. */
  ghost predicate Ordered(caps: seq<Capture>) {
    forall i, k | 0 <= i < k < |caps| ::
      caps[i].eo <= caps[k].so || (caps[i].so <= caps[k].so && caps[k].eo <= caps[i].eo)
  }

  lemma OrderedTwice(c1: seq<Capture>, c2: seq<Capture>, mid: nat)
    requires Ordered(c1) && Ordered(c2)
    requires (forall c | c in c1 :: c.eo <= mid) && forall c | c in c2 :: mid <= c.so
    ensures Ordered(c1 + c2)
  {
    forall i, k | 0 <= i < k < |c1 + c2|
      ensures (c1 + c2)[i].eo <= (c1 + c2)[k].so
              || ((c1 + c2)[i].so <= (c1 + c2)[k].so && (c1 + c2)[k].eo <= (c1 + c2)[i].eo)
    {
      if k < |c1| {
        assert c1[i].eo <= c1[k].so || (c1[i].so <= c1[k].so && c1[k].eo <= c1[i].eo);
      } else if i >= |c1| {
        var x, y := i - |c1|, k - |c1|;
        assert c2[x].eo <= c2[y].so || (c2[x].so <= c2[y].so && c2[y].eo <= c2[x].eo);
      } else {
        assert c1[i] in c1 && c2[k - |c1|] in c2;
      }
    }
  }

  lemma OrderedWithin(c: Capture, caps: seq<Capture>)
    requires Ordered(caps) && forall d | d in caps :: c.so <= d.so && d.eo <= c.eo
    ensures Ordered([c] + caps)
  {
    forall i, k | 0 <= i < k < |[c] + caps|
      ensures ([c] + caps)[i].eo <= ([c] + caps)[k].so
              || (([c] + caps)[i].so <= ([c] + caps)[k].so && ([c] + caps)[k].eo <= ([c] + caps)[i].eo)
    {
      assert caps[k - 1] in caps;
      if i > 0 {
        var x, y := i - 1, k - 1;
        assert caps[x].eo <= caps[y].so || (caps[x].so <= caps[y].so && caps[y].eo <= caps[x].eo);
      }
    }
  }

  lemma {:induction false} CapturesOrdered(v: Vars, t: Subre, b: nat, e: nat)
    requires WfTree(v, t) && MatchedBy(v, t, b, e)
    ensures Ordered(Captures(v, t, b, e))
    decreases t
  {
    match t.op
    case Terminal =>
    case Capturing =>
      CapturesOrdered(v, t.left, b, e);
      CapturesWithin(v, t.left, b, e);
      OrderedWithin(Capture(t, b, e), Captures(v, t.left, b, e));
    case Concatenation =>
      var mid := Midpoint(v, t, b, e);
      CapturesOrdered(v, t.left, b, mid);
      CapturesOrdered(v, t.right, mid, e);
      CapturesWithin(v, t.left, b, mid);
      CapturesWithin(v, t.right, mid, e);
      OrderedTwice(Captures(v, t.left, b, mid), Captures(v, t.right, mid, e), mid);
    case Alternation =>
      CapturesOrdered(v, Branch(v, t, b, e), b, e);
  }

  lemma {:induction false} WrittenElsewhere(pmatch: seq<Regmatch>, caps: seq<Capture>, n: nat)
    requires n < |pmatch| && forall c | c in caps :: c.sub.Subre? && c.sub.subno != n
    ensures Written(pmatch, caps)[n] == pmatch[n]
    decreases caps
  {
    if caps != [] {
      var c := caps[0];
      WrittenElsewhere(if c.sub.Subre? && c.sub.subno < |pmatch| then pmatch[c.sub.subno := Regmatch(c.so, c.eo)] else pmatch, caps[1..], n);
    }
  }

  /** Place n of the match vector holds the last capture numbered n. */
  lemma WrittenLast(pmatch: seq<Regmatch>, caps: seq<Capture>, k: nat)
    requires k < |caps| && caps[k].sub.Subre? && caps[k].sub.subno < |pmatch|
    requires forall c | c in caps[k + 1..] :: c.sub.Subre? && c.sub.subno != caps[k].sub.subno
    ensures Written(pmatch, caps)[caps[k].sub.subno] == Regmatch(caps[k].so, caps[k].eo)
  {
    assert caps == caps[..k] + ([caps[k]] + caps[k + 1..]);
    WrittenTwice(pmatch, caps[..k], [caps[k]] + caps[k + 1..]);
    WrittenElsewhere(Written(pmatch, caps[..k])[caps[k].sub.subno := Regmatch(caps[k].so, caps[k].eo)], caps[k + 1..], caps[k].sub.subno);
    assert ([caps[k]] + caps[k + 1..])[1..] == caps[k + 1..];
  }

  // ----- the nodes a match visits

  /** A step down the tree: into a parenthesized subexpression, to a side of a concatenation, to a branch. */
  datatype Turn = Content | LeftSide | RightSide | Chosen(i: nat)

  /** Node i of a chain. */
  function Link(t: Subre, i: nat): Subre {
    if i == 0 || t.Null? then t else Link(t.right, i - 1)
  }

  /** Branch i of an alternation matches. */
  ghost predicate BranchMatches(v: Vars, t: Subre, i: nat, b: nat, e: nat) {
    Link(t, i).Subre? && MatchedBy(v, Link(t, i).left, b, e)
  }

  ghost predicate FirstBranch(v: Vars, t: Subre, i: nat, b: nat, e: nat) {
    BranchMatches(v, t, i, b, e) && forall k: nat | k < i :: !BranchMatches(v, t, k, b, e)
  }

  /** One step from t, matching from b to e, to u, matching from c to f. */
  ghost predicate Down(v: Vars, t: Subre, b: nat, e: nat, turn: Turn, u: Subre, c: nat, f: nat) {
    t.Subre? && match turn
    case Content => t.op == Capturing && u == t.left && c == b && f == e
    case LeftSide => t.op == Concatenation && u == t.left && c == b && IsMidpoint(v, t, b, f, e)
    case RightSide => t.op == Concatenation && u == t.right && f == e && IsMidpoint(v, t, b, c, e)
    case Chosen(i) => t.op == Alternation && FirstBranch(v, t, i, b, e) && u == Link(t, i).left && c == b && f == e
  }

  /** The match of t from b to e visits u, for the text from c to f, these steps down. */
  ghost predicate Visits(v: Vars, t: Subre, b: nat, e: nat, way: seq<Turn>, u: Subre, c: nat, f: nat)
    decreases |way|
  {
    if way == [] then u == t && c == b && f == e
    else exists x, y: nat, z: nat :: Down(v, t, b, e, way[0], x, y, z) && Visits(v, x, y, z, way[1..], u, c, f)
  }

  /** It visits parenthesized subexpression n there. */
  ghost predicate VisitsGroup(v: Vars, t: Subre, b: nat, e: nat, n: nat, way: seq<Turn>, u: Subre, c: nat, f: nat) {
    Visits(v, t, b, e, way, u, c, f) && u.Subre? && u.op == Capturing && u.subno == n
  }

  /** The first way leads to an earlier visit: outer nodes come before inner ones, left sides before right ones. */
  predicate Earlier(w1: seq<Turn>, w2: seq<Turn>) {
    if w2 == [] then false
    else if w1 == [] then true
    else if w1[0] == w2[0] then Earlier(w1[1..], w2[1..])
    else w1[0] == LeftSide && w2[0] == RightSide
  }

  /** The last visit of subexpression n. */
  ghost predicate LastVisit(v: Vars, t: Subre, b: nat, e: nat, n: nat, way: seq<Turn>, u: Subre, c: nat, f: nat) {
    && VisitsGroup(v, t, b, e, n, way, u, c, f)
    && forall way', u', c': nat, f': nat | VisitsGroup(v, t, b, e, n, way', u', c', f') :: way' == way || Earlier(way', way)
  }

  /** Place n holds the span of the last visit of subexpression n, and what it did before if there is none. */
  ghost predicate Placed(v: Vars, t: Subre, b: nat, e: nat, n: nat, before: Regmatch, after: Regmatch) {
    || (exists way, u, c: nat, f: nat :: LastVisit(v, t, b, e, n, way, u, c, f) && after == Regmatch(c, f))
    || (after == before && forall way, u, c: nat, f: nat :: !VisitsGroup(v, t, b, e, n, way, u, c, f))
  }

  lemma MidpointOnce(v: Vars, t: Subre, b: nat, e: nat, m1: nat, m2: nat)
    requires IsMidpoint(v, t, b, m1, e) && IsMidpoint(v, t, b, m2, e)
    ensures m1 == m2
  {}

  /** There is one way to go on, except to the two sides of a concatenation. */
  lemma OneTurn(v: Vars, t: Subre, b: nat, e: nat, t1: Turn, u1: Subre, c1: nat, f1: nat, t2: Turn, u2: Subre, c2: nat, f2: nat)
    requires Down(v, t, b, e, t1, u1, c1, f1) && Down(v, t, b, e, t2, u2, c2, f2)
    ensures t1 == t2 ==> u1 == u2 && c1 == c2 && f1 == f2
    ensures t1 == t2 || (t1 == LeftSide && t2 == RightSide) || (t1 == RightSide && t2 == LeftSide)
  {
    if t.op == Concatenation && t1 == t2 {
      MidpointOnce(v, t, b, e, if t1 == LeftSide then f1 else c1, if t2 == LeftSide then f2 else c2);
    }
  }

  /** The branch taken, and its place along the chain. */
  lemma {:induction false} BranchPlace(v: Vars, t: Subre, b: nat, e: nat) returns (i: nat)
    requires WfChain(v, t) && AltMatches(v, t, b, e)
    ensures FirstBranch(v, t, i, b, e) && Link(t, i).left == Branch(v, t, b, e)
    decreases t
  {
    if MatchedBy(v, t.left, b, e) {
      i := 0;
    } else {
      var k := BranchPlace(v, t.right, b, e);
      i := k + 1;
      forall h: nat | h < i
        ensures !BranchMatches(v, t, h, b, e)
      {
        if h > 0 {
          assert Link(t, h) == Link(t.right, h - 1);
          assert !BranchMatches(v, t.right, h - 1, b, e);
        }
      }
    }
  }

  lemma VisitDown(v: Vars, t: Subre, b: nat, e: nat, turn: Turn, x: Subre, y: nat, z: nat, way: seq<Turn>, u: Subre, c: nat, f: nat)
    requires Down(v, t, b, e, turn, x, y, z) && Visits(v, x, y, z, way, u, c, f)
    ensures Visits(v, t, b, e, [turn] + way, u, c, f)
  {
    assert ([turn] + way)[1..] == way;
  }

  /** A visit begins with a step down known to be the only one, or with one to the other side. */
  lemma VisitUp(v: Vars, t: Subre, b: nat, e: nat, turn: Turn, x: Subre, y: nat, z: nat, way: seq<Turn>, u: Subre, c: nat, f: nat)
    requires Down(v, t, b, e, turn, x, y, z) && way != [] && Visits(v, t, b, e, way, u, c, f)
    ensures way[0] == turn ==> Visits(v, x, y, z, way[1..], u, c, f)
    ensures way[0] == turn || (way[0] == LeftSide && turn == RightSide) || (way[0] == RightSide && turn == LeftSide)
  {
    var x', y': nat, z': nat :| Down(v, t, b, e, way[0], x', y', z') && Visits(v, x', y', z', way[1..], u, c, f);
    OneTurn(v, t, b, e, turn, x, y, z, way[0], x', y', z');
  }

  /** The last visit below, reached last, is the last one. */
  lemma LastUp(v: Vars, t: Subre, b: nat, e: nat, n: nat, turn: Turn, x: Subre, y: nat, z: nat, way: seq<Turn>, u: Subre, c: nat, f: nat)
    requires Down(v, t, b, e, turn, x, y, z) && LastVisit(v, x, y, z, n, way, u, c, f)
    requires turn == LeftSide ==> forall w, u', c': nat, f': nat :: VisitsGroup(v, t, b, e, n, w, u', c', f') ==> w == [] || w[0] != RightSide
    ensures LastVisit(v, t, b, e, n, [turn] + way, u, c, f)
  {
    VisitDown(v, t, b, e, turn, x, y, z, way, u, c, f);
    forall w, u', c': nat, f': nat | VisitsGroup(v, t, b, e, n, w, u', c', f')
      ensures w == [turn] + way || Earlier(w, [turn] + way)
    {
      assert ([turn] + way)[1..] == way;
      if w != [] {
        VisitUp(v, t, b, e, turn, x, y, z, w, u', c', f');
        if w[0] == turn {
          assert VisitsGroup(v, x, y, z, n, w[1..], u', c', f');
          assert w == [turn] + w[1..];
        }
      }
    }
  }

  /** Nothing below, and not here either. */
  lemma NoneUp(v: Vars, t: Subre, b: nat, e: nat, n: nat, turn: Turn, x: Subre, y: nat, z: nat)
    requires Down(v, t, b, e, turn, x, y, z) && turn != LeftSide && turn != RightSide && (t.op == Capturing ==> t.subno != n)
    requires forall way, u, c: nat, f: nat :: !VisitsGroup(v, x, y, z, n, way, u, c, f)
    ensures forall way, u, c: nat, f: nat :: !VisitsGroup(v, t, b, e, n, way, u, c, f)
  {
    forall way, u, c: nat, f: nat
      ensures !VisitsGroup(v, t, b, e, n, way, u, c, f)
    {
      if way != [] && VisitsGroup(v, t, b, e, n, way, u, c, f) {
        VisitUp(v, t, b, e, turn, x, y, z, way, u, c, f);
        assert VisitsGroup(v, x, y, z, n, way[1..], u, c, f);
      }
    }
  }

  /** What the captures write is what the visits say, for every place of the match vector. */
  lemma {:induction false} CapturesPlaced(v: Vars, t: Subre, b: nat, e: nat, pmatch: seq<Regmatch>, n: nat)
    requires WfTree(v, t) && MatchedBy(v, t, b, e) && n < |pmatch|
    ensures Placed(v, t, b, e, n, pmatch[n], Written(pmatch, Captures(v, t, b, e))[n])
    decreases t, 1
  {
    match t.op
    case Terminal => TerminalPlaced(v, t, b, e, pmatch, n);
    case Capturing => GroupPlaced(v, t, b, e, pmatch, n);
    case Concatenation => SidesPlaced(v, t, b, e, pmatch, n);
    case Alternation => BranchPlaced(v, t, b, e, pmatch, n);
  }

  lemma TerminalPlaced(v: Vars, t: Subre, b: nat, e: nat, pmatch: seq<Regmatch>, n: nat)
    requires WfTree(v, t) && MatchedBy(v, t, b, e) && n < |pmatch| && t.op == Terminal
    ensures Placed(v, t, b, e, n, pmatch[n], Written(pmatch, Captures(v, t, b, e))[n])
  {
    forall way, u, c: nat, f: nat
      ensures !VisitsGroup(v, t, b, e, n, way, u, c, f)
    {
      assert way != [] ==> forall x, y: nat, z: nat :: !Down(v, t, b, e, way[0], x, y, z);
    }
  }

  lemma {:induction false} GroupPlaced(v: Vars, t: Subre, b: nat, e: nat, pmatch: seq<Regmatch>, n: nat)
    requires WfTree(v, t) && MatchedBy(v, t, b, e) && n < |pmatch| && t.op == Capturing
    ensures Placed(v, t, b, e, n, pmatch[n], Written(pmatch, Captures(v, t, b, e))[n])
    decreases t, 0
  {
    var first := if t.subno < |pmatch| then pmatch[t.subno := Regmatch(b, e)] else pmatch;
    var after := Written(first, Captures(v, t.left, b, e));
    assert Captures(v, t, b, e)[1..] == Captures(v, t.left, b, e);
    assert Written(pmatch, Captures(v, t, b, e)) == after;
    assert Down(v, t, b, e, Content, t.left, b, e);
    CapturesPlaced(v, t.left, b, e, first, n);
    if way, u, c: nat, f: nat :| LastVisit(v, t.left, b, e, n, way, u, c, f) && after[n] == Regmatch(c, f) {
      LastUp(v, t, b, e, n, Content, t.left, b, e, way, u, c, f);
    } else if t.subno == n {
      OnlyHere(v, t, b, e);
    } else {
      NoneUp(v, t, b, e, n, Content, t.left, b, e);
    }
  }

  lemma OnlyHere(v: Vars, t: Subre, b: nat, e: nat)
    requires t.Subre? && t.op == Capturing && forall way, u, c: nat, f: nat :: !VisitsGroup(v, t.left, b, e, t.subno, way, u, c, f)
    ensures LastVisit(v, t, b, e, t.subno, [], t, b, e)
  {
    assert Down(v, t, b, e, Content, t.left, b, e);
    forall way, u, c: nat, f: nat | VisitsGroup(v, t, b, e, t.subno, way, u, c, f)
      ensures way == []
    {
      if way != [] {
        VisitUp(v, t, b, e, Content, t.left, b, e, way, u, c, f);
        assert VisitsGroup(v, t.left, b, e, t.subno, way[1..], u, c, f);
      }
    }
  }

  lemma {:induction false} SidesPlaced(v: Vars, t: Subre, b: nat, e: nat, pmatch: seq<Regmatch>, n: nat)
    requires WfTree(v, t) && MatchedBy(v, t, b, e) && n < |pmatch| && t.op == Concatenation
    ensures Placed(v, t, b, e, n, pmatch[n], Written(pmatch, Captures(v, t, b, e))[n])
    decreases t, 0
  {
    var mid := Midpoint(v, t, b, e);
    var between := Written(pmatch, Captures(v, t.left, b, mid));
    WrittenTwice(pmatch, Captures(v, t.left, b, mid), Captures(v, t.right, mid, e));
    CapturesPlaced(v, t.left, b, mid, pmatch, n);
    CapturesPlaced(v, t.right, mid, e, between, n);
    SidesJoin(v, t, b, mid, e, n, pmatch[n], between[n], Written(between, Captures(v, t.right, mid, e))[n]);
  }

  /** The left side first, then the right one. */
  lemma SidesJoin(v: Vars, t: Subre, b: nat, mid: nat, e: nat, n: nat, before: Regmatch, between: Regmatch, after: Regmatch)
    requires t.Subre? && t.op == Concatenation && IsMidpoint(v, t, b, mid, e)
    requires Placed(v, t.left, b, mid, n, before, between) && Placed(v, t.right, mid, e, n, between, after)
    ensures Placed(v, t, b, e, n, before, after)
  {
    assert Down(v, t, b, e, LeftSide, t.left, b, mid) && Down(v, t, b, e, RightSide, t.right, mid, e);
    if way, u, c: nat, f: nat :| LastVisit(v, t.right, mid, e, n, way, u, c, f) && after == Regmatch(c, f) {
      LastUp(v, t, b, e, n, RightSide, t.right, mid, e, way, u, c, f);
    } else {
      NotThere(v, t, b, e, n, RightSide, t.right, mid, e);
      if way, u, c: nat, f: nat :| LastVisit(v, t.left, b, mid, n, way, u, c, f) && between == Regmatch(c, f) {
        LastUp(v, t, b, e, n, LeftSide, t.left, b, mid, way, u, c, f);
      } else {
        NotThere(v, t, b, e, n, LeftSide, t.left, b, mid);
        NeitherSide(v, t, b, e, n, mid);
      }
    }
  }

  lemma NotThere(v: Vars, t: Subre, b: nat, e: nat, n: nat, turn: Turn, x: Subre, y: nat, z: nat)
    requires Down(v, t, b, e, turn, x, y, z)
    requires forall way, u, c: nat, f: nat :: !VisitsGroup(v, x, y, z, n, way, u, c, f)
    ensures forall way, u, c: nat, f: nat :: VisitsGroup(v, t, b, e, n, way, u, c, f) ==> way == [] || way[0] != turn
  {
    forall way, u, c: nat, f: nat | VisitsGroup(v, t, b, e, n, way, u, c, f)
      ensures way == [] || way[0] != turn
    {
      if way != [] && way[0] == turn {
        VisitUp(v, t, b, e, turn, x, y, z, way, u, c, f);
        assert VisitsGroup(v, x, y, z, n, way[1..], u, c, f);
      }
    }
  }

  lemma NeitherSide(v: Vars, t: Subre, b: nat, e: nat, n: nat, mid: nat)
    requires t.Subre? && t.op == Concatenation && IsMidpoint(v, t, b, mid, e)
    requires forall way, u, c: nat, f: nat :: VisitsGroup(v, t, b, e, n, way, u, c, f) ==> way == [] || (way[0] != LeftSide && way[0] != RightSide)
    ensures forall way, u, c: nat, f: nat :: !VisitsGroup(v, t, b, e, n, way, u, c, f)
  {
    assert Down(v, t, b, e, LeftSide, t.left, b, mid);
    forall way, u, c: nat, f: nat
      ensures !VisitsGroup(v, t, b, e, n, way, u, c, f)
    {
      if way != [] && VisitsGroup(v, t, b, e, n, way, u, c, f) {
        VisitUp(v, t, b, e, LeftSide, t.left, b, mid, way, u, c, f);
      }
    }
  }

  lemma {:induction false} BranchPlaced(v: Vars, t: Subre, b: nat, e: nat, pmatch: seq<Regmatch>, n: nat)
    requires WfTree(v, t) && MatchedBy(v, t, b, e) && n < |pmatch| && t.op == Alternation
    ensures Placed(v, t, b, e, n, pmatch[n], Written(pmatch, Captures(v, t, b, e))[n])
    decreases t, 0
  {
    var x := Branch(v, t, b, e);
    var i := BranchPlace(v, t, b, e);
    assert Down(v, t, b, e, Chosen(i), x, b, e);
    CapturesPlaced(v, x, b, e, pmatch, n);
    if way, u, c: nat, f: nat :| LastVisit(v, x, b, e, n, way, u, c, f) && Written(pmatch, Captures(v, x, b, e))[n] == Regmatch(c, f) {
      LastUp(v, t, b, e, n, Chosen(i), x, b, e, way, u, c, f);
    } else {
      NoneUp(v, t, b, e, n, Chosen(i), x, b, e);
    }
  }

  /** Every capture is of a visit, */
  lemma {:induction false} CaptureVisited(v: Vars, t: Subre, b: nat, e: nat, c: Capture) returns (way: seq<Turn>)
    requires WfTree(v, t) && MatchedBy(v, t, b, e) && c in Captures(v, t, b, e)
    ensures Visits(v, t, b, e, way, c.sub, c.so, c.eo) && c.sub.Subre? && c.sub.op == Capturing
    decreases t
  {
    way := [];
    match t.op
    case Terminal =>
    case Capturing =>
      if c != Capture(t, b, e) {
        way := CaptureVisited(v, t.left, b, e, c);
        VisitDown(v, t, b, e, Content, t.left, b, e, way, c.sub, c.so, c.eo);
        way := [Content] + way;
      }
    case Concatenation =>
      var mid := Midpoint(v, t, b, e);
      if c in Captures(v, t.left, b, mid) {
        way := CaptureVisited(v, t.left, b, mid, c);
        VisitDown(v, t, b, e, LeftSide, t.left, b, mid, way, c.sub, c.so, c.eo);
        way := [LeftSide] + way;
      } else {
        way := CaptureVisited(v, t.right, mid, e, c);
        VisitDown(v, t, b, e, RightSide, t.right, mid, e, way, c.sub, c.so, c.eo);
        way := [RightSide] + way;
      }
    case Alternation =>
      var x := Branch(v, t, b, e);
      var i := BranchPlace(v, t, b, e);
      way := CaptureVisited(v, x, b, e, c);
      VisitDown(v, t, b, e, Chosen(i), x, b, e, way, c.sub, c.so, c.eo);
      way := [Chosen(i)] + way;
  }

  /** and every visit of a parenthesized subexpression is among the captures. */
  lemma {:induction false} VisitCaptured(v: Vars, t: Subre, b: nat, e: nat, way: seq<Turn>, u: Subre, c: nat, f: nat)
    requires WfTree(v, t) && MatchedBy(v, t, b, e) && Visits(v, t, b, e, way, u, c, f) && u.Subre? && u.op == Capturing
    ensures Capture(u, c, f) in Captures(v, t, b, e)
    decreases t
  {
    if way != [] {
      match t.op
      case Terminal =>
      case Capturing =>
        VisitUp(v, t, b, e, Content, t.left, b, e, way, u, c, f);
        VisitCaptured(v, t.left, b, e, way[1..], u, c, f);
      case Concatenation =>
        var mid := Midpoint(v, t, b, e);
        if way[0] == RightSide {
          VisitUp(v, t, b, e, RightSide, t.right, mid, e, way, u, c, f);
          VisitCaptured(v, t.right, mid, e, way[1..], u, c, f);
        } else {
          VisitUp(v, t, b, e, LeftSide, t.left, b, mid, way, u, c, f);
          VisitCaptured(v, t.left, b, mid, way[1..], u, c, f);
        }
      case Alternation =>
        var x := Branch(v, t, b, e);
        var i := BranchPlace(v, t, b, e);
        VisitUp(v, t, b, e, Chosen(i), x, b, e, way, u, c, f);
        VisitCaptured(v, x, b, e, way[1..], u, c, f);
    }
  }

  /** Parenthesized subexpression u is visited for the text from c to f. */
  ghost predicate Visited(v: Vars, t: Subre, b: nat, e: nat, u: Subre, c: nat, f: nat) {
    u.Subre? && u.op == Capturing && exists way :: Visits(v, t, b, e, way, u, c, f)
  }

  lemma VisitedCaptured(v: Vars, t: Subre, b: nat, e: nat, u: Subre, c: nat, f: nat)
    requires WfTree(v, t) && MatchedBy(v, t, b, e) && Visited(v, t, b, e, u, c, f)
    ensures Capture(u, c, f) in Captures(v, t, b, e)
  {
    var way :| Visits(v, t, b, e, way, u, c, f);
    VisitCaptured(v, t, b, e, way, u, c, f);
  }

  lemma CapturedVisited(v: Vars, t: Subre, b: nat, e: nat, u: Subre, c: nat, f: nat)
    requires WfTree(v, t) && MatchedBy(v, t, b, e) && Capture(u, c, f) in Captures(v, t, b, e)
    ensures Visited(v, t, b, e, u, c, f)
  {
    var way := CaptureVisited(v, t, b, e, Capture(u, c, f));
  }

  /** The captures of a match are the spans of the parenthesized subexpressions it visits, and nothing else. */
  lemma CapturesAreVisits(v: Vars, t: Subre, b: nat, e: nat, u: Subre, c: nat, f: nat)
    requires WfTree(v, t) && MatchedBy(v, t, b, e)
    ensures Capture(u, c, f) in Captures(v, t, b, e) <==> Visited(v, t, b, e, u, c, f)
  {
    if Capture(u, c, f) in Captures(v, t, b, e) {
      CapturedVisited(v, t, b, e, u, c, f);
    } else if Visited(v, t, b, e, u, c, f) {
      VisitedCaptured(v, t, b, e, u, c, f);
    }
  }

  /** Some node of the tree is parenthesized subexpression n. */
  predicate Numbered(t: Subre, n: nat) {
    t.Subre? && ((t.op == Capturing && t.subno == n) || Numbered(t.left, n) || Numbered(t.right, n))
  }

  lemma {:induction false} LinkNumbered(t: Subre, i: nat, n: nat)
    requires Link(t, i).Subre? && Numbered(Link(t, i).left, n)
    ensures Numbered(t, n)
    decreases i
  {
    if i > 0 {
      LinkNumbered(t.right, i - 1, n);
    }
  }

  lemma {:induction false} VisitedNumbered(v: Vars, t: Subre, b: nat, e: nat, n: nat, way: seq<Turn>, u: Subre, c: nat, f: nat)
    requires VisitsGroup(v, t, b, e, n, way, u, c, f)
    ensures Numbered(t, n)
    decreases |way|
  {
    if way != [] {
      var x, y: nat, z: nat :| Down(v, t, b, e, way[0], x, y, z) && Visits(v, x, y, z, way[1..], u, c, f);
      VisitedNumbered(v, x, y, z, n, way[1..], u, c, f);
      if way[0].Chosen? {
        LinkNumbered(t, way[0].i, n);
      }
    }
  }

  /** A parenthesized whole, the only one with its number, gets the whole match. */
  lemma WholeCaptured(v: Vars, t: Subre, b: nat, e: nat, before: Regmatch, after: Regmatch)
    requires t.Subre? && t.op == Capturing && t.right.Null? && !Numbered(t.left, t.subno)
    requires Placed(v, t, b, e, t.subno, before, after)
    ensures after == Regmatch(b, e)
  {
    forall way, u, c: nat, f: nat
      ensures !VisitsGroup(v, t.left, b, e, t.subno, way, u, c, f)
    {
      if VisitsGroup(v, t.left, b, e, t.subno, way, u, c, f) {
        VisitedNumbered(v, t.left, b, e, t.subno, way, u, c, f);
      }
    }
    OnlyHere(v, t, b, e);
    if way, u, c: nat, f: nat :| LastVisit(v, t, b, e, t.subno, way, u, c, f) && after == Regmatch(c, f) {
      assert VisitsGroup(v, t, b, e, t.subno, way, u, c, f) && VisitsGroup(v, t, b, e, t.subno, [], t, b, e);
    }
  }

  /** The places of a match vector after a match has been dissected. */
  ghost predicate AllPlaced(v: Vars, t: Subre, b: nat, e: nat, before: seq<Regmatch>, after: seq<Regmatch>) {
    |after| == |before| && forall n: nat | n < |before| :: Placed(v, t, b, e, n, before[n], after[n])
  }

  lemma AllCapturesPlaced(v: Vars, t: Subre, b: nat, e: nat, pmatch: seq<Regmatch>)
    requires WfTree(v, t) && MatchedBy(v, t, b, e)
    ensures AllPlaced(v, t, b, e, pmatch, Written(pmatch, Captures(v, t, b, e)))
  {
    forall n: nat | n < |pmatch|
      ensures Placed(v, t, b, e, n, pmatch[n], Written(pmatch, Captures(v, t, b, e))[n])
    {
      CapturesPlaced(v, t, b, e, pmatch, n);
    }
  }

  /** Place 0 is no subexpression's. */
  lemma {:induction false} NumberedFrom1(v: Vars, t: Subre, n: nat)
    requires if t.Subre? && t.op == Alternation then WfChain(v, t) else WfTree(v, t)
    ensures Numbered(t, n) ==> n > 0
    decreases t
  {
    match t.op
    case Terminal =>
      assert !Numbered(t.left, n) && !Numbered(t.right, n);
    case Capturing =>
      NumberedFrom1(v, t.left, n);
      assert !Numbered(t.right, n);
    case Concatenation =>
      NumberedFrom1(v, t.left, n);
      NumberedFrom1(v, t.right, n);
    case Alternation =>
      NumberedFrom1(v, t.left, n);
      if t.right.Subre? {
        NumberedFrom1(v, t.right, n);
      } else {
        assert !Numbered(t.right, n);
      }
  }

  /** The match vector `find` fills: the whole match first, then the subexpressions. */
  ghost predicate Filled(v: Vars, t: Subre, b: nat, e: nat, pmatch: seq<Regmatch>) {
    pmatch != [] && pmatch[0] == Regmatch(b, e) && forall n: nat | 0 < n < |pmatch| :: Placed(v, t, b, e, n, UNSET, pmatch[n])
  }

  /** The match vector of n places for a match from b to e. */
  ghost function MatchVector(v: Vars, t: Subre, n: nat, b: nat, e: nat): seq<Regmatch>
    requires n > 0 && WfTree(v, t) && MatchedBy(v, t, b, e)
  {
    Written([Regmatch(b, e)] + seq(n - 1, _ => UNSET), Captures(v, t, b, e))
  }

  lemma VectorFilled(v: Vars, t: Subre, n: nat, b: nat, e: nat)
    requires n > 0 && WfTree(v, t) && MatchedBy(v, t, b, e)
    ensures |MatchVector(v, t, n, b, e)| == n && Filled(v, t, b, e, MatchVector(v, t, n, b, e))
  {
    var before := [Regmatch(b, e)] + seq(n - 1, _ => UNSET);
    AllCapturesPlaced(v, t, b, e, before);
    forall way, u, c: nat, f: nat
      ensures !VisitsGroup(v, t, b, e, 0, way, u, c, f)
    {
      if VisitsGroup(v, t, b, e, 0, way, u, c, f) {
        VisitedNumbered(v, t, b, e, 0, way, u, c, f);
        NumberedFrom1(v, t, 0);
      }
    }
    assert Placed(v, t, b, e, 0, before[0], MatchVector(v, t, n, b, e)[0]);
    forall k: nat | 0 < k < n
      ensures Placed(v, t, b, e, k, UNSET, MatchVector(v, t, n, b, e)[k])
    {
      assert Placed(v, t, b, e, k, before[k], MatchVector(v, t, n, b, e)[k]);
    }
  }
}
