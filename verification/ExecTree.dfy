/** The tree of subexpressions as compiled (regcomp.c): if each node has the NFA `nfanode` makes for its part of the main
    NFA, and the parts are joined as the parser joins them, the tree is as `find` relies on. */
module ExecTree {
  import opened Cnfas
  import opened Nets
  import opened NetFragments
  import opened NfaMatch
  import opened NfaProblem
  import opened NfaNodes
  import opened SearchNfa
  import opened Submatches
  import opened Exec

  /** The parts of the main NFA that belong to the nodes of a tree; those of an alternation are in one list. */
  datatype Plan =
    | Leaf(part: Part)
    | Wrap(part: Part, inner: Plan)
    | Pair(part: Part, left: Plan, right: Plan)
    | OneOf(part: Part, branches: seq<Plan>)

  /** The same can be read on the way across. */
  ghost predicate Same(g: Net, w: Part, w': Part) {
    forall s: Subject, p: nat, q: nat :: Across(g, s, w, p, q) <==> Across(g, s, w', p, q)
  }

  /** First the one part, then the other. */
  ghost predicate Sequence(g: Net, w: Part, l: Part, r: Part) {
    forall s: Subject, p: nat, q: nat :: Across(g, s, w, p, q) <==> exists m: nat :: Across(g, s, l, p, m) && Across(g, s, r, m, q)
  }

  /** Any one of the parts. */
  ghost predicate Choice(g: Net, w: Part, ws: seq<Plan>) {
    forall s: Subject, p: nat, q: nat :: Across(g, s, w, p, q) <==> exists i :: 0 <= i < |ws| && Across(g, s, ws[i].part, p, q)
  }

  /** The node has the NFA of its part, and so have the nodes below. */
  ghost predicate Fits(v: Vars, g: Net, t: Subre, w: Plan)
    decreases t, 1
  {
    && t.Subre? && JobOf(v, t.cnfa).Wf(|v.lacons|) && Node(JobOf(v, t.cnfa), g, w.part)
    && match t.op
       case Terminal => t.left.Null? && t.right.Null?
       case Capturing => t.subno > 0 && t.right.Null? && w.Wrap? && Same(g, w.part, w.inner.part) && Fits(v, g, t.left, w.inner)
       case Concatenation =>
         && w.Pair? && Sequence(g, w.part, w.left.part, w.right.part)
         && Fits(v, g, t.left, w.left) && Fits(v, g, t.right, w.right)
       case Alternation => w.OneOf? && Choice(g, w.part, w.branches) && ChainFits(v, g, t, w.branches)
  }

  ghost predicate ChainFits(v: Vars, g: Net, t: Subre, ws: seq<Plan>)
    decreases t, 0
  {
    && t.Subre? && t.op == Alternation && ws != [] && Fits(v, g, t.left, ws[0])
    && if t.right.Null? then |ws| == 1 else ChainFits(v, g, t.right, ws[1..])
  }

  lemma Matched(v: Vars, g: Net, t: Subre, w: Part, b: nat, e: nat)
    requires t.Subre? && Node(JobOf(v, t.cnfa), g, w)
    ensures MatchedBy(v, t, b, e) ==> b <= e <= |v.text|
    ensures b <= e <= |v.text| ==> (MatchedBy(v, t, b, e) <==> Across(g, SubjectOf(JobOf(v, t.cnfa), b, e), w, 1, e - b + 1))
  {}

  /** What another node matches, within the subject of a stretch around it. */
  lemma MatchedWithin(v: Vars, g: Net, t: Subre, u: Subre, w: Part, b: nat, e: nat, c: nat, f: nat)
    requires t.Subre? && u.Subre? && Node(JobOf(v, u.cnfa), g, w) && b <= c <= f <= e <= |v.text|
    requires t.cnfa.bos == g.bos && t.cnfa.eos == g.eos
    ensures MatchedBy(v, u, c, f) <==> Across(g, SubjectOf(JobOf(v, t.cnfa), b, e), w, c - b + 1, f - b + 1)
  {
    NodeWithin(JobOf(v, t.cnfa), JobOf(v, u.cnfa), g, w, b, e, c, f);
  }

  lemma SplitMatches(v: Vars, g: Net, t: Subre, w: Plan, b: nat, mid: nat, e: nat)
    requires Fits(v, g, t, w) && t.op == Concatenation && Splits(v, t, b, mid, e)
    ensures MatchedBy(v, t, b, e)
  {
    Matched(v, g, t.left, w.left.part, b, mid);
    Matched(v, g, t.right, w.right.part, mid, e);
    MatchedWithin(v, g, t, t.left, w.left.part, b, e, b, mid);
    MatchedWithin(v, g, t, t.right, w.right.part, b, e, mid, e);
    Matched(v, g, t, w.part, b, e);
  }

  lemma MatchSplits(v: Vars, g: Net, t: Subre, w: Plan, b: nat, e: nat) returns (mid: nat)
    requires Fits(v, g, t, w) && t.op == Concatenation && MatchedBy(v, t, b, e)
    ensures Splits(v, t, b, mid, e)
  {
    Matched(v, g, t, w.part, b, e);
    var s := SubjectOf(JobOf(v, t.cnfa), b, e);
    var m: nat :| Across(g, s, w.left.part, 1, m) && Across(g, s, w.right.part, m, e - b + 1);
    AcrossOnward(g, s, w.left.part, 1, m);
    AcrossOnward(g, s, w.right.part, m, e - b + 1);
    mid := b + m - 1;
    MatchedWithin(v, g, t, t.left, w.left.part, b, e, b, mid);
    MatchedWithin(v, g, t, t.right, w.right.part, b, e, mid, e);
  }

  /** A concatenation matches what its sides match in turn. */
  lemma SequenceMatches(v: Vars, g: Net, t: Subre, w: Plan, b: nat, e: nat)
    requires Fits(v, g, t, w) && t.op == Concatenation
    ensures MatchedBy(v, t, b, e) <==> exists mid :: Splits(v, t, b, mid, e)
  {
    if MatchedBy(v, t, b, e) {
      var mid := MatchSplits(v, g, t, w, b, e);
    }
    if mid: nat :| Splits(v, t, b, mid, e) {
      SplitMatches(v, g, t, w, b, mid, e);
    }
  }

  /** The branches of a chain, within the subject of the stretch. */
  lemma {:induction false} ChainMatches(v: Vars, g: Net, t: Subre, u: Subre, ws: seq<Plan>, b: nat, e: nat)
    requires ChainFits(v, g, u, ws) && t.Subre? && t.cnfa.bos == g.bos && t.cnfa.eos == g.eos && b <= e <= |v.text|
    requires |g.bos| == 2 && |g.eos| == 2
    ensures AltMatches(v, u, b, e) <==>
      exists i :: 0 <= i < |ws| && Across(g, SubjectOf(JobOf(v, t.cnfa), b, e), ws[i].part, 1, e - b + 1)
    decreases u
  {
    var s := SubjectOf(JobOf(v, t.cnfa), b, e);
    MatchedWithin(v, g, t, u.left, ws[0].part, b, e, b, e);
    if u.right.Subre? {
      ChainMatches(v, g, t, u.right, ws[1..], b, e);
      assert forall i :: 0 <= i < |ws[1..]| ==> ws[1..][i] == ws[i + 1];
      if i :| 0 <= i < |ws| && Across(g, s, ws[i].part, 1, e - b + 1) {
        assert i > 0 ==> ws[1..][i - 1] == ws[i];
      }
    }
  }

  lemma {:induction false} AltWithin(v: Vars, g: Net, t: Subre, ws: seq<Plan>, b: nat, e: nat)
    requires ChainFits(v, g, t, ws) && AltMatches(v, t, b, e)
    ensures b <= e <= |v.text|
    decreases t
  {
    if MatchedBy(v, t.left, b, e) {
      Matched(v, g, t.left, ws[0].part, b, e);
    } else {
      AltWithin(v, g, t.right, ws[1..], b, e);
    }
  }

  /** An alternation matches what one of its branches matches. */
  lemma ChoiceMatches(v: Vars, g: Net, t: Subre, w: Plan, b: nat, e: nat)
    requires Fits(v, g, t, w) && t.op == Alternation
    ensures MatchedBy(v, t, b, e) <==> AltMatches(v, t, b, e)
  {
    if AltMatches(v, t, b, e) {
      AltWithin(v, g, t, w.branches, b, e);
    }
    Matched(v, g, t, w.part, b, e);
    if b <= e <= |v.text| {
      ChainMatches(v, g, t, t, w.branches, b, e);
    }
  }

  lemma WrapMatches(v: Vars, g: Net, t: Subre, w: Plan, b: nat, e: nat)
    requires Fits(v, g, t, w) && t.op == Capturing
    ensures MatchedBy(v, t, b, e) <==> MatchedBy(v, t.left, b, e)
  {
    Matched(v, g, t, w.part, b, e);
    Matched(v, g, t.left, w.inner.part, b, e);
    if b <= e <= |v.text| {
      MatchedWithin(v, g, t, t.left, w.inner.part, b, e, b, e);
    }
  }

  /** The tree is as `find` relies on. */
  lemma {:induction false} FitsWf(v: Vars, g: Net, t: Subre, w: Plan)
    requires Fits(v, g, t, w)
    ensures WfTree(v, t)
    decreases t, 1
  {
    match t.op
    case Terminal =>
    case Capturing =>
      FitsWf(v, g, t.left, w.inner);
      forall b: nat, e: nat
        ensures MatchedBy(v, t, b, e) <==> MatchedBy(v, t.left, b, e)
      {
        WrapMatches(v, g, t, w, b, e);
      }
    case Concatenation =>
      FitsWf(v, g, t.left, w.left);
      FitsWf(v, g, t.right, w.right);
      forall b: nat, e: nat
        ensures MatchedBy(v, t, b, e) <==> exists mid :: Splits(v, t, b, mid, e)
      {
        SequenceMatches(v, g, t, w, b, e);
      }
    case Alternation =>
      ChainWf(v, g, t, w.branches);
      forall b: nat, e: nat
        ensures MatchedBy(v, t, b, e) <==> AltMatches(v, t, b, e)
      {
        ChoiceMatches(v, g, t, w, b, e);
      }
  }

  lemma {:induction false} ChainWf(v: Vars, g: Net, t: Subre, ws: seq<Plan>)
    requires ChainFits(v, g, t, ws)
    ensures WfChain(v, t)
    decreases t, 0
  {
    FitsWf(v, g, t.left, ws[0]);
    if t.right.Subre? {
      ChainWf(v, g, t.right, ws[1..]);
    }
  }

  // ----- how the parser joins parts

  /** Parts end to end. */
  lemma EndToEnd(g: Net, lp: nat, C: set<nat>, z: nat, B: set<nat>, rp: nat)
    requires Frag(g, lp, C, z) && Frag(g, z, B, rp) && C !! B && lp !in B && lp != rp && rp !in C
    ensures Sequence(g, Part(lp, C + {z} + B, rp), Part(lp, C, z), Part(z, B, rp))
  {
    Composed(g, lp, C, z, B, rp);
    var w, l, r := Part(lp, C + {z} + B, rp), Part(lp, C, z), Part(z, B, rp);
    forall s: Subject, p: nat, q: nat
      ensures Across(g, s, w, p, q) <==> exists m: nat :: Across(g, s, l, p, m) && Across(g, s, r, m, q)
    {
      if Across(g, s, w, p, q) {
        var m: nat :| Passes(g, s, lp, C, z, p, m) && Passes(g, s, z, B, rp, m, q);
        assert Across(g, s, l, p, m) && Across(g, s, r, m, q);
      }
      if m: nat :| Across(g, s, l, p, m) && Across(g, s, r, m, q) {
        assert Passes(g, s, lp, C, z, p, m) && Passes(g, s, z, B, rp, m, q);
      }
    }
  }

  ghost function States(w: Part): set<nat> {
    {w.lp, w.rp} + w.B
  }

  /** `parse`: each branch hangs by EMPTY arcs between the ends. */
  ghost predicate Forked(g: Net, w: Part, ws: seq<Plan>) {
    && Frag(g, w.lp, w.B, w.rp)
    && (forall i :: 0 <= i < |ws| ==> Branch(g, w, ws[i].part))
    && (forall i, k :: 0 <= i < k < |ws| ==> States(ws[i].part) !! States(ws[k].part))
    && forall a :: a in Inside(g, w.lp, w.B) ==> exists i :: 0 <= i < |ws| && InBranch(g, w, ws[i].part, a)
  }

  ghost predicate Branch(g: Net, w: Part, x: Part) {
    && Frag(g, x.lp, x.B, x.rp) && States(x) <= w.B
    && Arc(EMPTY, 0, w.lp, x.lp) in g.arcs && Arc(EMPTY, 0, x.rp, w.rp) in g.arcs
  }

  ghost predicate InBranch(g: Net, w: Part, x: Part, a: Arc) {
    a == Arc(EMPTY, 0, w.lp, x.lp) || a == Arc(EMPTY, 0, x.rp, w.rp) || a in Inside(g, x.lp, x.B)
  }

  /** Where one can be in a fork entered at p0: at its start, within a branch, or at its end by way of one. */
  ghost predicate AtFork(g: Net, s: Subject, w: Part, ws: seq<Plan>, p0: nat, x: nat, p: nat) {
    && (x == w.lp ==> p == p0)
    && (forall k: nat :: k < |ws| && x in States(ws[k].part) ==> InPart(g, s, ws[k].part, p0, x, p))
    && (x == w.rp ==> exists k: nat :: k < |ws| && Across(g, s, ws[k].part, p0, p))
  }

  ghost predicate InPart(g: Net, s: Subject, w: Part, p0: nat, x: nat, p: nat) {
    Reached(FragNet(g, w.lp, w.B), s, Config(w.lp, p0), x, p)
  }

  /** The states of different branches. */
  lemma OneBranch(g: Net, w: Part, ws: seq<Plan>, i: nat, k: nat, x: nat)
    requires Forked(g, w, ws) && i < |ws| && k < |ws| && x in States(ws[i].part) && x in States(ws[k].part)
    ensures i == k
  {}

  lemma ForkStep(g: Net, w: Part, ws: seq<Plan>, s: Subject, p0: nat, k: nat, a: Arc, u: nat, v: nat)
    requires Forked(g, w, ws) && k < |ws| && InBranch(g, w, ws[k].part, a)
    requires AtFork(g, s, w, ws, p0, a.from, u) && Fires(FragNet(g, w.lp, w.B), s, a, u, v)
    ensures AtFork(g, s, w, ws, p0, a.to, v)
  {
    var x := ws[k].part;
    var n, c := FragNet(g, x.lp, x.B), Config(x.lp, p0);
    assert Branch(g, w, x);
    ReachedHere(n, s, c);
    if a in Inside(g, x.lp, x.B) {
      assert FragArc(a, x.lp, x.B, x.rp);
      assert InPart(g, s, x, p0, a.from, u);
      ReachedStep(n, s, c, a, u, v);
    } else if a == Arc(EMPTY, 0, x.rp, w.rp) {
      assert InPart(g, s, x, p0, a.from, u);
      assert Across(g, s, x, p0, v);
    }
    forall i: nat | i < |ws| && a.to in States(ws[i].part)
      ensures InPart(g, s, ws[i].part, p0, a.to, v)
    {
      assert Branch(g, w, ws[i].part);
      if a.to in States(x) {
        OneBranch(g, w, ws, i, k, a.to);
      }
    }
  }

  lemma ForkForth(g: Net, w: Part, ws: seq<Plan>, s: Subject, p0: nat, q: nat) returns (i: nat)
    requires Forked(g, w, ws) && Across(g, s, w, p0, q)
    ensures i < |ws| && Across(g, s, ws[i].part, p0, q)
  {
    var n, c := FragNet(g, w.lp, w.B), Config(w.lp, p0);
    var inv := (x: nat, p: nat) => AtFork(g, s, w, ws, p0, x, p);
    forall k: nat | k < |ws|
      ensures w.lp !in States(ws[k].part)
    {
      assert Branch(g, w, ws[k].part);
    }
    forall a: Arc, u: nat, v: nat {:trigger Fires(n, s, a, u, v)} |
      a in n.arcs && Reached(n, s, c, a.from, u) && inv(a.from, u) && Fires(n, s, a, u, v)
      ensures inv(a.to, v)
    {
      var k: nat :| k < |ws| && InBranch(g, w, ws[k].part, a);
      ForkStep(g, w, ws, s, p0, k, a, u, v);
    }
    ReachedInduction(n, s, c, inv);
    assert inv(w.rp, q) && AtFork(g, s, w, ws, p0, w.rp, q);
    i :| i < |ws| && Across(g, s, ws[i].part, p0, q);
  }

  lemma ForkBack(g: Net, w: Part, ws: seq<Plan>, s: Subject, p0: nat, q: nat, i: nat)
    requires Forked(g, w, ws) && i < |ws| && Across(g, s, ws[i].part, p0, q)
    ensures Across(g, s, w, p0, q)
  {
    var x, n, c := ws[i].part, FragNet(g, w.lp, w.B), Config(w.lp, p0);
    var m, d := FragNet(g, x.lp, x.B), Config(x.lp, p0);
    assert Branch(g, w, x);
    ReachedHere(n, s, c);
    ReachedStep(n, s, c, Arc(EMPTY, 0, w.lp, x.lp), p0, p0);
    ReachedMore(m, n, s, d);
    ReachedOn(n, s, c, d);
    ReachedStep(n, s, c, Arc(EMPTY, 0, x.rp, w.rp), q, q);
  }

  /** Branches in parallel. */
  lemma InParallel(g: Net, w: Part, ws: seq<Plan>)
    requires Forked(g, w, ws)
    ensures Choice(g, w, ws)
  {
    forall s: Subject, p: nat, q: nat
      ensures Across(g, s, w, p, q) <==> exists i :: 0 <= i < |ws| && Across(g, s, ws[i].part, p, q)
    {
      if Across(g, s, w, p, q) {
        var i := ForkForth(g, w, ws, s, p, q);
      }
      if i: nat :| i < |ws| && Across(g, s, ws[i].part, p, q) {
        ForkBack(g, w, ws, s, p, q, i);
      }
    }
  }

  // ----- the whole regular expression

  /** The search NFA comes from the main NFA, the root's from the part of it that is the whole expression. */
  lemma RootSearched(js: Job, jn: Job, jr: Job, g: Net, w: Part, colors: seq<nat>, lim: nat)
    requires SearchFor(js, jn, lim) && MatchesAs(jn, g) && Shell(g, colors, w) && Node(jr, g, w) && jr.Wf(lim)
    requires jr.v == jn.v && jr.la == jn.la && forall i | 0 <= i < |jn.v.text| :: jn.v.cm(jn.v.text[i]) in colors
    ensures SearchFor(js, jr, lim)
  {
    forall b: nat, e: nat
      ensures jr.Matches(b, e) <==> jn.Matches(b, e)
    {
      if b <= e <= |jn.v.text| {
        var s := SubjectOf(jn, b, e);
        assert |s.x| == e - b + 2 && s.x[0] == jn.PrevColor(b) && s.x[|s.x| - 1] == jn.NextColor(e);
        ShellAccepts(g, colors, w, s);
        NodeWithin(jn, jr, g, w, b, e, b, e);
      }
    }
  }

  /** `compile`: nodes with the NFAs of their parts, joined as parsed, under the whole expression, and the search NFA
      made of the main NFA, are all that `find` relies on. */
  lemma Compiled(v: Vars, g: Net, guts: Guts, w: Plan, main: Cnfa, colors: seq<nat>)
    requires Fits(v, g, guts.tree, w) && Shell(g, colors, w.part) && SearchPair(g, main, guts.search, colors, |v.lacons|)
    requires forall i | 0 <= i < |v.text| :: v.cm(v.text[i]) in colors
    ensures WfTree(v, guts.tree) && SearchFor(JobOf(v, guts.search), JobOf(v, guts.tree.cnfa), |v.lacons|)
  {
    FitsWf(v, g, guts.tree, w);
    var js, jn := JobOf(v, guts.search), JobOf(v, main);
    assert Alike(js, jn, main, guts.search, colors);
    RootSearched(js, jn, JobOf(v, guts.tree.cnfa), g, w.part, colors, |v.lacons|);
  }
}
