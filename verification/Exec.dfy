/** Finding a match and its submatches (regexec.c): `find`, `dissect`, `condissect`, `altdissect`, on top of the lazy
    DFA. */
module Exec {
  import opened Cnfas
  import opened Dfas
  import opened DfaTimes
  import opened DfaEngine
  import opened SearchNfa
  import opened Submatches
  import opened Folding

  /** A compiled RE: its tree, whose root has the main NFA, and its search NFA. */
  datatype Guts = Guts(tree: Subre, search: Cnfa)

  datatype Status = OKAY | NOMATCH

  // ----- dissecting

  /** `subset`. */
  method Subset(pmatch: array<Regmatch>, sub: Subre, begin: nat, end: nat)
    requires sub.Subre?
    modifies pmatch
    ensures pmatch[..] == Written(old(pmatch[..]), [Capture(sub, begin, end)])
  {
    var n := sub.subno;
    if n >= pmatch.Length {
      return;
    }
    pmatch[n] := Regmatch(begin, end);
  }

  /** The DFA and its tables. */
  ghost function Footprint(d: Dfa): set<object> {
    {d, d.states, d.flags, d.ins, d.outs, d.inchain, d.lastseen}
  }

  /** The DFA, with footprint fp, is fit for matching one NFA; carried along without being looked into. */
  ghost predicate Serves(d: Dfa, j: Job, fp: set<object>)
    reads fp
  {
    exists m: Memory :: SealedFor(d, j, fp, m)
  }

  ghost predicate SealedFor(d: Dfa, j: Job, fp: set<object>, m: Memory)
    reads fp
  {
    forall u {:trigger Look(u)} :: Look(u) ==> fp == Footprint(d) && d.Valid() && d.J() == j && m == d.Contents()
  }

  lemma SealFor(d: Dfa, fp: set<object>)
    requires d.Valid() && fp == Footprint(d)
    ensures Serves(d, d.J(), fp)
  {
    assert SealedFor(d, d.J(), fp, d.Contents());
  }

  lemma UnsealFor(d: Dfa, j: Job, fp: set<object>)
    requires Serves(d, j, fp)
    ensures d.Valid() && d.J() == j && fp == Footprint(d)
  {
    assert Look(0);
  }

  /** A fresh DFA for one NFA. */
  method NewDfa(v: Vars, cnfa: Cnfa) returns (d: Dfa, ghost fp: set<object>)
    requires WfLacons(v) && JobOf(v, cnfa).Wf(|v.lacons|)
    ensures fresh(fp) && Serves(d, JobOf(v, cnfa), fp)
  {
    d := new Dfa(v, cnfa, |v.lacons|);
    fp := Footprint(d);
    SealFor(d, fp);
  }

  /** `dissect`: set the submatches of a match. */
  method Dissect(v: Vars, pmatch: array<Regmatch>, t: Subre, begin: nat, end: nat) returns (st: Status)
    requires WfLacons(v) && WfTree(v, t) && MatchedBy(v, t, begin, end)
    modifies pmatch
    ensures st == OKAY
    ensures pmatch[..] == Written(old(pmatch[..]), Captures(v, t, begin, end))
    ensures AllPlaced(v, t, begin, end, old(pmatch[..]), pmatch[..])
    decreases t, 1
  {
    AllCapturesPlaced(v, t, begin, end, pmatch[..]);
    match t.op
    case Terminal =>
      st := OKAY;
    case Alternation =>
      st := AltDissect(v, pmatch, t, begin, end);
    case Concatenation =>
      st := ConDissect(v, pmatch, t, begin, end);
    case Capturing =>
      Subset(pmatch, t, begin, end);
      st := Dissect(v, pmatch, t.left, begin, end);
      WrittenTwice(old(pmatch[..]), [Capture(t, begin, end)], Captures(v, t.left, begin, end));
  }

  /** `condissect`: the tree's promise rules out every failure exit. */
  method ConDissect(v: Vars, pmatch: array<Regmatch>, t: Subre, begin: nat, end: nat) returns (st: Status)
    requires WfLacons(v) && WfTree(v, t) && MatchedBy(v, t, begin, end) && t.op == Concatenation
    modifies pmatch
    ensures st == OKAY
    ensures pmatch[..] == Written(old(pmatch[..]), Captures(v, t, begin, end))
    decreases t, 0
  {
    var mid := FindMidpoint(v, t, begin, end);
    st := Dissect(v, pmatch, t.left, begin, mid);
    if st != OKAY {
      return;
    }
    st := Dissect(v, pmatch, t.right, mid, end);
    WrittenTwice(old(pmatch[..]), Captures(v, t.left, begin, mid), Captures(v, t.right, mid, end));
  }

  /** Every midpoint on the preferred side of mid fails. */
  ghost predicate NoneBefore(v: Vars, t: Subre, b: nat, mid: int, e: nat) {
    t.Subre? && t.left.Subre? &&
    forall m: nat :: b <= m <= e && (if t.left.shorter then m < mid else m > mid) ==> !Splits(v, t, b, m, e)
  }

  /** The best end of the left side within [lo, hi]. */
  method Tentative(ghost v: Vars, ghost t: Subre, d: Dfa, ghost fp: set<object>, shorter: bool, b: nat, lo: nat, hi: nat, ghost e: nat) returns (mid: int)
    requires t.Subre? && t.left.Subre? && Serves(d, JobOf(v, t.left.cnfa), fp) && shorter == t.left.shorter
    requires b <= lo <= hi <= e <= |v.text| && (if shorter then hi == e && NoneBefore(v, t, b, lo, e) else lo == b && NoneBefore(v, t, b, hi, e))
    requires exists m: nat :: Splits(v, t, b, m, e) && lo <= m <= hi
    modifies fp
    ensures Serves(d, JobOf(v, t.left.cnfa), fp)
    ensures lo <= mid <= hi && MatchedBy(v, t.left, b, mid) && NoneBefore(v, t, b, mid, e)
  {
    ghost var m: nat :| Splits(v, t, b, m, e) && lo <= m <= hi;
    UnsealFor(d, JobOf(v, t.left.cnfa), fp);
    if shorter {
      var cold;
      mid, cold := Shortest(d, b, lo, hi);
    } else {
      mid := Longest(d, b, hi);
    }
    SealFor(d, fp);
  }

  /** `longest(v, d, begin, end) == end`: does the subexpression u match all of it? */
  method Reaches(ghost v: Vars, ghost u: Subre, d: Dfa, ghost fp: set<object>, begin: nat, end: nat) returns (yes: bool)
    requires u.Subre? && Serves(d, JobOf(v, u.cnfa), fp) && begin <= end <= |v.text|
    modifies fp
    ensures Serves(d, JobOf(v, u.cnfa), fp) && yes == MatchedBy(v, u, begin, end)
  {
    UnsealFor(d, JobOf(v, u.cnfa), fp);
    var reached := Longest(d, begin, end);
    yes := reached == end;
    SealFor(d, fp);
  }

  /** After a midpoint that fails, another one is left. */
  lemma AnotherMidpoint(v: Vars, t: Subre, b: nat, mid: nat, e: nat)
    requires WfTree(v, t) && t.op == Concatenation && MatchedBy(v, t, b, e) && b <= mid <= e
    requires NoneBefore(v, t, b, mid, e) && !MatchedBy(v, t.right, mid, e)
    ensures if t.left.shorter then mid < e && NoneBefore(v, t, b, mid + 1, e) else b < mid && NoneBefore(v, t, b, mid - 1, e)
    ensures exists m: nat :: Splits(v, t, b, m, e) && if t.left.shorter then mid + 1 <= m <= e else b <= m <= mid - 1
  {
    var best := Midpoint(v, t, b, e);
    assert Splits(v, t, b, best, e) && best != mid;
  }

  lemma AMidpoint(v: Vars, t: Subre, b: nat, e: nat)
    requires WfTree(v, t) && t.op == Concatenation && MatchedBy(v, t, b, e)
    ensures b <= e <= |v.text| && NoneBefore(v, t, b, if t.left.shorter then b else e, e)
    ensures exists m: nat :: Splits(v, t, b, m, e) && b <= m <= e
  {
    var mid := Midpoint(v, t, b, e);
    SplitsWithin(v, t, b, mid, e);
  }

  lemma MidpointFound(v: Vars, t: Subre, b: nat, mid: nat, e: nat)
    requires WfTree(v, t) && t.op == Concatenation && MatchedBy(v, t, b, e) && b <= mid <= e
    requires NoneBefore(v, t, b, mid, e) && MatchedBy(v, t.left, b, mid) && MatchedBy(v, t.right, mid, e)
    ensures mid == Midpoint(v, t, b, e)
  {
    assert Splits(v, t, b, mid, e) && Splits(v, t, b, Midpoint(v, t, b, e), e);
  }

  /** A new midpoint after one that failed, or failure at `stop`. */
  method NextMidpoint(v: Vars, t: Subre, d: Dfa, ghost fp: set<object>, begin: nat, last: nat, end: nat) returns (mid: int)
    requires WfTree(v, t) && t.op == Concatenation && MatchedBy(v, t, begin, end) && begin <= last <= end
    requires Serves(d, JobOf(v, t.left.cnfa), fp) && NoneBefore(v, t, begin, last, end) && !MatchedBy(v, t.right, last, end)
    modifies fp
    ensures Serves(d, JobOf(v, t.left.cnfa), fp)
    ensures begin <= mid <= end && MatchedBy(v, t.left, begin, mid) && NoneBefore(v, t, begin, mid, end)
    ensures if t.left.shorter then mid > last else mid < last
  {
    AnotherMidpoint(v, t, begin, last, end);
    var stop := if t.left.shorter then end else begin;
    if last == stop {
      assert false;
    } else if t.left.shorter {
      mid := Tentative(v, t, d, fp, true, begin, last + 1, end, end);
    } else {
      mid := Tentative(v, t, d, fp, false, begin, begin, last - 1, end);
    }
  }

  /** The midpoint search of `condissect`. */
  method FindMidpoint(v: Vars, t: Subre, begin: nat, end: nat) returns (mid: nat)
    requires WfLacons(v) && WfTree(v, t) && MatchedBy(v, t, begin, end) && t.op == Concatenation
    ensures mid == Midpoint(v, t, begin, end)
    ensures BestSplit(v, t, begin, mid, end)
  {
    var shorter := t.left.shorter;
    var d, fp := NewDfa(v, t.left.cnfa);
    var d2, fp2 := NewDfa(v, t.right.cnfa);
    AMidpoint(v, t, begin, end);
    MidpointIsBest(v, t, begin, end);
    mid := Tentative(v, t, d, fp, shorter, begin, begin, end, end);
    mid := TryMidpoints(v, t, d, fp, d2, fp2, begin, mid, end);
  }

  /** The loop of `condissect`. */
  method TryMidpoints(v: Vars, t: Subre, d: Dfa, ghost fp: set<object>, d2: Dfa, ghost fp2: set<object>, begin: nat, mid0: nat, end: nat)
    returns (mid: nat)
    requires WfTree(v, t) && MatchedBy(v, t, begin, end) && t.op == Concatenation && fp !! fp2
    requires Serves(d, JobOf(v, t.left.cnfa), fp) && Serves(d2, JobOf(v, t.right.cnfa), fp2)
    requires begin <= mid0 <= end <= |v.text| && MatchedBy(v, t.left, begin, mid0) && NoneBefore(v, t, begin, mid0, end)
    modifies fp, fp2
    ensures mid == Midpoint(v, t, begin, end)
  {
    mid := mid0;
    var works := Reaches(v, t.right, d2, fp2, mid, end);
    while !works
      invariant Serves(d, JobOf(v, t.left.cnfa), fp) && Serves(d2, JobOf(v, t.right.cnfa), fp2)
      invariant begin <= mid <= end && MatchedBy(v, t.left, begin, mid) && NoneBefore(v, t, begin, mid, end)
      invariant works == MatchedBy(v, t.right, mid, end)
      decreases if t.left.shorter then end - mid else mid
    {
      mid := NextMidpoint(v, t, d, fp, begin, mid, end);
      works := Reaches(v, t.right, d2, fp2, mid, end);
    }
    MidpointFound(v, t, begin, mid, end);
  }

  /** `altdissect`: try the branches in order. */
  method AltDissect(v: Vars, pmatch: array<Regmatch>, t: Subre, begin: nat, end: nat) returns (st: Status)
    requires WfLacons(v) && WfTree(v, t) && MatchedBy(v, t, begin, end) && t.op == Alternation
    modifies pmatch
    ensures st == OKAY
    ensures pmatch[..] == Written(old(pmatch[..]), Captures(v, t, begin, end))
    decreases t, 0
  {
    var u := t;
    while u.Subre?
      invariant u.Subre? && WfChain(v, u) && AltMatches(v, u, begin, end) && Branch(v, u, begin, end) == Branch(v, t, begin, end)
      invariant u == t || u < t
      invariant pmatch[..] == old(pmatch[..])
      decreases u
    {
      var d, fp := NewDfa(v, u.left.cnfa);
      var works := Reaches(v, u.left, d, fp, begin, end);
      if works {
        st := Dissect(v, pmatch, u.left, begin, end);
        return;
      }
      u := u.right;
    }
    assert false;
  }

  // ----- finding the match

  /** The match to report: leftmost, and from there longest (shortest if the tree prefers that). */
  ghost predicate IsFound(v: Vars, t: Subre, b: nat, e: nat) {
    && MatchedBy(v, t, b, e)
    && (forall b2: nat, e2: nat | b2 < b :: !MatchedBy(v, t, b2, e2))
    && forall e2: nat | (if t.shorter then e2 < e else e2 > e) :: !MatchedBy(v, t, b, e2)
  }

  lemma GoalIsProgress(n: Cnfa, h: Trail, p: nat)
    requires Split(n) && HasAt(n, h, 0, p, true)
    ensures !HasAt(n, h, 0, p, false)
  {}

  /** The last no-progress point does not lie past the match. */
  lemma ColdInside(js: Job, lim: nat, close: nat, cold: int)
    requires js.Wf(lim) && Split(js.n) && js.Matches(0, close)
    requires IsCold(js.n, TrailOf(js, 0), 0, if close < |js.v.text| then close + 1 else close, cold)
    ensures 0 <= cold <= close
  {
    if close < |js.v.text| {
      GoalAhead(js, lim, TrailOf(js, 0), 0, close);
      GoalIsProgress(js.n, TrailOf(js, 0), close + 1);
    }
  }

  /** What the search NFA's answer means for the main NFA. */
  lemma SearchTells(js: Job, jn: Job, lim: nat, close: nat, cold: int)
    requires SearchFor(js, jn, lim) && IsShortest(js, 0, 0, |js.v.text|, close)
    requires IsCold(js.n, TrailOf(js, 0), 0, if close < |js.v.text| then close + 1 else close, cold)
    ensures 0 <= cold <= close <= |js.v.text|
    ensures exists b: nat :: b <= close && jn.Matches(b, close)
    ensures forall b: nat, e: nat | jn.Matches(b, e) :: cold <= b && close <= e
  {
    ColdInside(js, lim, close, cold);
    SearchMatch(js, jn, lim, close);
    var b0: nat :| jn.Matches(b0, close);
    forall b: nat, e: nat | jn.Matches(b, e)
      ensures cold <= b && close <= e
    {
      SearchMatch(js, jn, lim, e);
      NotBeforeCold(js, jn, lim, cold, b, e);
    }
  }

  lemma NotBeforeCold(js: Job, jn: Job, lim: nat, cold: nat, b: nat, e: nat)
    requires SearchFor(js, jn, lim) && cold <= e <= |js.v.text| && jn.Matches(b, e)
    requires cold == 0 || HasAt(js.n, TrailOf(js, 0), 0, cold, false)
    ensures cold <= b
  {
    if b < cold {
      ColdMatch(js, jn, lim, cold, b, e);
    }
  }

  /** One run of the search DFA: is there a match, and where can the first one begin? */
  method SearchShot(v: Vars, g: Guts) returns (close: int, cold: int)
    requires WfLacons(v) && g.tree.Subre? && SearchFor(JobOf(v, g.search), JobOf(v, g.tree.cnfa), |v.lacons|)
    ensures close == NIL ==> forall b: nat, e: nat :: !MatchedBy(v, g.tree, b, e)
    ensures close != NIL ==> 0 <= cold <= close <= |v.text| && exists b: nat :: b <= close && MatchedBy(v, g.tree, b, close)
    ensures close != NIL ==> forall b: nat, e: nat | MatchedBy(v, g.tree, b, e) :: cold <= b
  {
    ghost var js, jn := JobOf(v, g.search), JobOf(v, g.tree.cnfa);
    var s, fp := NewDfa(v, g.search);
    UnsealFor(s, js, fp);
    close, cold := Shortest(s, 0, 0, |v.text|);
    if close == NIL {
      forall b: nat, e: nat
        ensures !MatchedBy(v, g.tree, b, e)
      {
        if jn.Matches(b, e) {
          SearchMatch(js, jn, |v.lacons|, e);
        }
      }
    } else {
      SearchTells(js, jn, |v.lacons|, close, cold);
      ghost var b: nat :| b <= close && jn.Matches(b, close);
      assert MatchedBy(v, g.tree, b, close);
    }
  }

  /** The preferred end of a match of u that begins at b, NIL if there is none. */
  ghost predicate IsPreferred(v: Vars, u: Subre, b: nat, end: int) {
    && u.Subre? && (end == NIL || (end >= 0 && MatchedBy(v, u, b, end)))
    && forall e: nat | end == NIL || (if u.shorter then e < end else e > end) :: !MatchedBy(v, u, b, e)
  }

  lemma LongestPreferred(v: Vars, u: Subre, b: nat, end: int)
    requires u.Subre? && !u.shorter && b <= |v.text| && IsLongest(JobOf(v, u.cnfa), b, |v.text|, end)
    ensures IsPreferred(v, u, b, end)
  {
    forall e: nat | e > end
      ensures !MatchedBy(v, u, b, e)
    {
      assert b <= e <= |v.text| ==> !JobOf(v, u.cnfa).Matches(b, e);
    }
  }

  lemma ShortestPreferred(v: Vars, u: Subre, b: nat, end: int)
    requires u.Subre? && u.shorter && b <= |v.text| && IsShortest(JobOf(v, u.cnfa), b, b, |v.text|, end)
    ensures IsPreferred(v, u, b, end)
  {
    forall e: nat | end == NIL || e < end
      ensures !MatchedBy(v, u, b, e)
    {
      assert b <= e <= |v.text| ==> !JobOf(v, u.cnfa).Matches(b, e);
    }
  }

  method PreferredEnd(v: Vars, u: Subre, d: Dfa, ghost fp: set<object>, begin: nat) returns (end: int)
    requires u.Subre? && Serves(d, JobOf(v, u.cnfa), fp) && begin <= |v.text|
    modifies fp
    ensures Serves(d, JobOf(v, u.cnfa), fp)
    ensures IsPreferred(v, u, begin, end)
  {
    UnsealFor(d, JobOf(v, u.cnfa), fp);
    if u.shorter {
      var cold;
      end, cold := Shortest(d, begin, begin, |v.text|);
      ShortestPreferred(v, u, begin, end);
    } else {
      end := Longest(d, begin, |v.text|);
      LongestPreferred(v, u, begin, end);
    }
    SealFor(d, fp);
  }

  /** Tries begins in turn until one has a match. */
  method Pinpoint(v: Vars, t: Subre, open: nat, close: nat) returns (begin: nat, end: nat)
    requires WfLacons(v) && WfTree(v, t) && open <= close <= |v.text|
    requires exists b: nat :: b <= close && MatchedBy(v, t, b, close)
    requires forall b: nat, e: nat | MatchedBy(v, t, b, e) :: open <= b
    ensures IsFound(v, t, begin, end)
  {
    var d, fp := NewDfa(v, t.cnfa);
    begin := open;
    var last := NIL;
    while begin <= close
      invariant open <= begin <= close + 1 && Serves(d, JobOf(v, t.cnfa), fp)
      invariant forall b: nat, e: nat | b < begin :: !MatchedBy(v, t, b, e)
      invariant last == NIL
    {
      last := PreferredEnd(v, t, d, fp, begin);
      if last != NIL {
        break;
      }
      begin := begin + 1;
    }
    assert last != NIL;
    end := last;
  }

  /** `zapsubs`. */
  method ZapSubs(p: array<Regmatch>)
    requires p.Length > 0
    modifies p
    ensures p[..] == [old(p[0])] + seq(p.Length - 1, _ => UNSET)
  {
    var i := p.Length - 1;
    while i > 0
      invariant 0 <= i < p.Length && p[0] == old(p[0])
      invariant forall k | i < k < p.Length :: p[k] == UNSET
    {
      p[i] := UNSET;
      i := i - 1;
    }
  }

  lemma SingleVector(v: Vars, t: Subre, pmatch: seq<Regmatch>, b: nat, e: nat)
    requires WfTree(v, t) && MatchedBy(v, t, b, e) && pmatch == [Regmatch(b, e)]
    ensures pmatch == MatchVector(v, t, 1, b, e)
  {
    assert pmatch == [Regmatch(b, e)] + seq(0, _ => UNSET);
    CapturesWithin(v, t, b, e);
    WrittenElsewhere(pmatch, Captures(v, t, b, e), 0);
  }

  /** The match found goes into the match vector, and what its dissection finds. */
  method FillVector(v: Vars, t: Subre, pmatch: array<Regmatch>, begin: nat, end: nat) returns (st: Status)
    requires WfLacons(v) && WfTree(v, t) && MatchedBy(v, t, begin, end) && pmatch.Length > 0
    modifies pmatch
    ensures st == OKAY && pmatch[..] == MatchVector(v, t, pmatch.Length, begin, end)
    ensures Filled(v, t, begin, end, pmatch[..])
  {
    VectorFilled(v, t, pmatch.Length, begin, end);
    pmatch[0] := Regmatch(begin, end);
    if pmatch.Length == 1 {
      SingleVector(v, t, pmatch[..], begin, end);
      return OKAY;
    }
    ZapSubs(pmatch);
    st := Dissect(v, pmatch, t, begin, end);
  }

  /** `find`, without REG_EXPECT: the status, and the match vector if there is room for one. */
  method Find(v: Vars, g: Guts, pmatch: array<Regmatch>) returns (st: Status, ghost b: nat, ghost e: nat)
    requires WfLacons(v) && WfTree(v, g.tree)
    requires SearchFor(JobOf(v, g.search), JobOf(v, g.tree.cnfa), |v.lacons|)
    modifies pmatch
    ensures st == NOMATCH <==> forall b: nat, e: nat :: !MatchedBy(v, g.tree, b, e)
    ensures st == NOMATCH ==> pmatch[..] == old(pmatch[..])
    ensures st == OKAY && pmatch.Length > 0 ==> IsFound(v, g.tree, b, e) && pmatch[..] == MatchVector(v, g.tree, pmatch.Length, b, e)
    ensures st == OKAY && pmatch.Length > 0 ==> Filled(v, g.tree, b, e, pmatch[..])
    ensures st == OKAY && pmatch.Length > 0 ==> pmatch[0] == Regmatch(b, e) && MatchedBy(v, g.tree, b, e)
    ensures st == OKAY && pmatch.Length > 0 ==> forall b2: nat, e2: nat | MatchedBy(v, g.tree, b2, e2) ::
              b <= b2 && (b2 == b ==> if g.tree.shorter then e <= e2 else e2 <= e)
  {
    b, e := 0, 0;
    var close, open := SearchShot(v, g);
    if close == NIL {
      return NOMATCH, b, e;
    }
    ghost var b0: nat :| b0 <= close && MatchedBy(v, g.tree, b0, close);
    if pmatch.Length == 0 {
      return OKAY, b, e;
    }
    var begin, end := Pinpoint(v, g.tree, open, close);
    b, e := begin, end;
    st := FillVector(v, g.tree, pmatch, begin, end);
  }
}
