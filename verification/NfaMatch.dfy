/** The compacted NFA matches exactly what the NFA it was made from accepts. */
module NfaMatch {
  import opened Cnfas
  import opened Nets
  import opened NfaCompact

  /** The text from b to e as an NFA reads it, with the characters around it. */
  ghost function SubjectOf(j: Job, b: nat, e: nat): Subject
    requires |j.n.bos| == 2 && |j.n.eos| == 2 && b <= e <= |j.v.text|
  {
    Subject([j.PrevColor(b)] + seq(e - b, i requires 0 <= i < e - b => j.v.cm(j.v.text[b + i])) + [j.NextColor(e)],
            (k: nat, p: nat) => j.la(k, TextPos(j, b, p)))
  }

  /** The position in the text of the place after p characters of the subject. */
  function TextPos(j: Job, b: nat, p: nat): nat {
    if b + p <= 1 then 0 else if b + p - 1 <= |j.v.text| then b + p - 1 else |j.v.text|
  }

  /** The state set after reading p characters of a subject. */
  ghost function Sim(j: Job, s: Subject, b: nat, p: nat): set<nat>
    requires p <= |s.x|
  {
    if p == 0 then {j.n.pre} else j.Step(Sim(j, s, b, p - 1), s.x[p - 1], TextPos(j, b, p))
  }

  /** Simulation with state sets reads the subject. */
  lemma {:induction false} SimStates(j: Job, b: nat, e: nat, k: nat)
    requires |j.n.bos| == 2 && |j.n.eos| == 2 && b <= k <= e <= |j.v.text|
    ensures j.States(b, k) == Sim(j, SubjectOf(j, b, e), b, k - b + 1)
    decreases k
  {
    var s := SubjectOf(j, b, e);
    assert Sim(j, s, b, 0) == {j.n.pre};
    if k > b {
      SimStates(j, b, e, k - 1);
      assert s.x[k - b] == j.v.cm(j.v.text[k - 1]);
    }
  }

  lemma SimMatches(j: Job, b: nat, e: nat)
    requires |j.n.bos| == 2 && |j.n.eos| == 2 && b <= e <= |j.v.text|
    ensures var s := SubjectOf(j, b, e); j.Matches(b, e) <==> j.n.post in Sim(j, s, b, |s.x|)
  {
    SimStates(j, b, e, e);
    var s := SubjectOf(j, b, e);
    assert s.x[|s.x| - 1] == j.NextColor(e) && |s.x| == e - b + 2;
  }

  /** The subject's colors are colors. */
  lemma SubjectColors(j: Job, b: nat, e: nat, lim: nat)
    requires j.Wf(lim) && b <= e <= |j.v.text|
    ensures forall c | c in SubjectOf(j, b, e).x :: c < j.n.ncolors
  {}

  // ----- state sets and reachability

  /** The numbers in T are those of the states reached at p. */
  ghost predicate Agrees(g: Net, s: Subject, states: seq<nat>, T: set<nat>, p: nat) {
    && (forall i | i in T :: i < |states|)
    && forall i: nat | i < |states| :: i in T <==> Reached(g, s, Start(g), states[i], p)
  }

  lemma AgreesStart(g: Net, s: Subject, states: seq<nat>, no: map<nat, nat>, c: Cnfa, lim: nat)
    requires Compactable(g, c.ncolors, lim) && IsCompact(g, states, no, c)
    ensures Agrees(g, s, states, {c.pre}, 0)
  {
    var inv := (x: nat, p: nat) => p > 0 || x == g.pre;
    forall a: Arc, q: nat, p: nat {:trigger Fires(g, s, a, q, p)} |
      a in g.arcs && Reached(g, s, Start(g), a.from, q) && inv(a.from, q) && Fires(g, s, a, q, p)
      ensures inv(a.to, p)
    {
      assert ArcCompactable(g, c.ncolors, lim, a);
    }
    ReachedInduction(g, s, Start(g), inv);
    ReachedHere(g, s, Start(g));
    forall i: nat | i < |states|
      ensures i == c.pre <==> Reached(g, s, Start(g), states[i], 0)
    {
      assert states[c.pre] == g.pre;
    }
  }

  lemma ArcStands(g: Net, states: seq<nat>, no: map<nat, nat>, c: Cnfa, a: Arc)
    requires IsCompact(g, states, no, c) && a in g.arcs
    ensures Compacted(a, c.ncolors, no) in c.states[no[a.from]].outs
  {
    assert StateCompact(g.arcs, states[no[a.from]], c.ncolors, no, c.states[no[a.from]].outs);
    assert Stands(g.arcs, states[no[a.from]], c.ncolors, no, Compacted(a, c.ncolors, no));
  }

  /** Reading a character: from reached states to reached states. */
  lemma DirectReached(j: Job, g: Net, s: Subject, states: seq<nat>, no: map<nat, nat>, lim: nat, b: nat, p: nat, T: set<nat>, i: nat)
    requires Compactable(g, j.n.ncolors, lim) && IsCompact(g, states, no, j.n) && 0 < p <= |s.x| && s.x[p - 1] < j.n.ncolors
    requires Agrees(g, s, states, T, p - 1) && i in j.Direct(T, s.x[p - 1])
    ensures i < |states| && Reached(g, s, Start(g), states[i], p)
  {
    var x, k :| x in T && x < |j.n.states| && 0 <= k < |j.n.states[x].outs| && j.n.states[x].outs[k].co == s.x[p - 1]
                && j.n.states[x].outs[k].to == i;
    assert StateCompact(g.arcs, states[x], j.n.ncolors, no, j.n.states[x].outs);
    assert Stands(g.arcs, states[x], j.n.ncolors, no, j.n.states[x].outs[k]);
    var a :| a in g.arcs && a.from == states[x] && a.to in no && j.n.states[x].outs[k] == Compacted(a, j.n.ncolors, no);
    assert ArcCompactable(g, j.n.ncolors, lim, a);
    ReachedStep(g, s, Start(g), a, p - 1, p);
  }

  /** Passing a lookahead constraint likewise. */
  lemma EdgeReached(j: Job, g: Net, s: Subject, states: seq<nat>, no: map<nat, nat>, lim: nat, b: nat, p: nat, x: nat, y: nat)
    requires Compactable(g, j.n.ncolors, lim) && IsCompact(g, states, no, j.n)
    requires forall k: nat :: s.la(k, p) <==> j.la(k, TextPos(j, b, p))
    requires x < |states| && j.LaconEdge(TextPos(j, b, p), x, y) && Reached(g, s, Start(g), states[x], p)
    ensures y < |states| && Reached(g, s, Start(g), states[y], p)
  {
    var k: nat :| j.LaconArc(TextPos(j, b, p), x, k, y);
    assert StateCompact(g.arcs, states[x], j.n.ncolors, no, j.n.states[x].outs);
    assert Stands(g.arcs, states[x], j.n.ncolors, no, j.n.states[x].outs[k]);
    var a :| a in g.arcs && a.from == states[x] && a.to in no && j.n.states[x].outs[k] == Compacted(a, j.n.ncolors, no);
    assert ArcCompactable(g, j.n.ncolors, lim, a);
    ReachedStep(g, s, Start(g), a, p, p);
  }

  lemma EdgeOf(j: Job, g: Net, s: Subject, states: seq<nat>, no: map<nat, nat>, lim: nat, b: nat, p: nat, a: Arc)
    requires Compactable(g, j.n.ncolors, lim) && IsCompact(g, states, no, j.n) && a in g.arcs && a.kind == LACON
    requires s.la(a.co, p) && forall k: nat :: s.la(k, p) <==> j.la(k, TextPos(j, b, p))
    ensures j.LaconEdge(TextPos(j, b, p), no[a.from], no[a.to])
  {
    ArcStands(g, states, no, j.n, a);
    assert ArcCompactable(g, j.n.ncolors, lim, a);
    var outs := j.n.states[no[a.from]].outs;
    var k :| 0 <= k < |outs| && outs[k] == Compacted(a, j.n.ncolors, no);
    assert j.LaconArc(TextPos(j, b, p), no[a.from], k, no[a.to]);
  }

  lemma AgreesStep(j: Job, g: Net, s: Subject, states: seq<nat>, no: map<nat, nat>, lim: nat, b: nat, p: nat, T: set<nat>)
    requires Compactable(g, j.n.ncolors, lim) && IsCompact(g, states, no, j.n) && 0 < p <= |s.x| && s.x[p - 1] < j.n.ncolors
    requires forall k: nat :: s.la(k, p) <==> j.la(k, TextPos(j, b, p))
    requires Agrees(g, s, states, T, p - 1)
    ensures Agrees(g, s, states, j.Step(T, s.x[p - 1], TextPos(j, b, p)), p)
  {
    var D, t := j.Direct(T, s.x[p - 1]), TextPos(j, b, p);
    var next := j.Closure(t, D);
    StepReached(j, g, s, states, no, lim, b, p, T);
    var inv := (x: nat, q: nat) => x in no && (q == p ==> no[x] in next);
    forall a: Arc, q: nat, r: nat {:trigger Fires(g, s, a, q, r)} |
      a in g.arcs && Reached(g, s, Start(g), a.from, q) && inv(a.from, q) && Fires(g, s, a, q, r)
      ensures inv(a.to, r)
    {
      if r == p {
        StepOne(j, g, s, states, no, lim, b, p, T, a, q);
      }
    }
    ReachedInduction(g, s, Start(g), inv);
  }

  lemma StepOne(j: Job, g: Net, s: Subject, states: seq<nat>, no: map<nat, nat>, lim: nat, b: nat, p: nat, T: set<nat>, a: Arc, q: nat)
    requires Compactable(g, j.n.ncolors, lim) && IsCompact(g, states, no, j.n) && 0 < p <= |s.x| && s.x[p - 1] < j.n.ncolors
    requires forall k: nat :: s.la(k, p) <==> j.la(k, TextPos(j, b, p))
    requires Agrees(g, s, states, T, p - 1)
    requires a in g.arcs && Fires(g, s, a, q, p) && Reached(g, s, Start(g), a.from, q)
    requires q == p ==> no[a.from] in j.Closure(TextPos(j, b, p), j.Direct(T, s.x[p - 1]))
    ensures no[a.to] in j.Closure(TextPos(j, b, p), j.Direct(T, s.x[p - 1]))
  {
    var D, t := j.Direct(T, s.x[p - 1]), TextPos(j, b, p);
    assert ArcCompactable(g, j.n.ncolors, lim, a);
    if a.kind == PLAIN {
      ArcStands(g, states, no, j.n, a);
      var outs := j.n.states[no[a.from]].outs;
      var k :| 0 <= k < |outs| && outs[k] == Compacted(a, j.n.ncolors, no);
      assert no[a.from] in T && no[a.to] in D;
      forall i | i in D ensures i < |j.n.states| { DirectReached(j, g, s, states, no, lim, b, p, T, i); }
      ClosureContains(j, t, D);
    } else {
      EdgeOf(j, g, s, states, no, lim, b, p, a);
      ClosureClosed(j, t, D, no[a.from], no[a.to]);
    }
  }

  lemma StepReached(j: Job, g: Net, s: Subject, states: seq<nat>, no: map<nat, nat>, lim: nat, b: nat, p: nat, T: set<nat>)
    requires Compactable(g, j.n.ncolors, lim) && IsCompact(g, states, no, j.n) && 0 < p <= |s.x| && s.x[p - 1] < j.n.ncolors
    requires forall k: nat :: s.la(k, p) <==> j.la(k, TextPos(j, b, p))
    requires Agrees(g, s, states, T, p - 1)
    ensures forall i | i in j.Step(T, s.x[p - 1], TextPos(j, b, p)) :: i < |states| && Reached(g, s, Start(g), states[i], p)
  {
    var D, t := j.Direct(T, s.x[p - 1]), TextPos(j, b, p);
    var R := set i: nat | i < |states| && Reached(g, s, Start(g), states[i], p);
    forall i | i in D
      ensures i in R
    {
      DirectReached(j, g, s, states, no, lim, b, p, T, i);
    }
    forall x, y | x in R && j.LaconEdge(t, x, y)
      ensures y in R
    {
      EdgeReached(j, g, s, states, no, lim, b, p, x, y);
    }
    ClosureLeast(j, t, D, R);
  }

  lemma {:induction false} SimReached(j: Job, g: Net, s: Subject, states: seq<nat>, no: map<nat, nat>, lim: nat, b: nat, p: nat)
    requires Compactable(g, j.n.ncolors, lim) && IsCompact(g, states, no, j.n) && p <= |s.x|
    requires forall c | c in s.x :: c < j.n.ncolors
    requires forall q: nat, k: nat | 0 < q :: s.la(k, q) <==> j.la(k, TextPos(j, b, q))
    ensures Agrees(g, s, states, Sim(j, s, b, p), p)
    decreases p
  {
    if p == 0 {
      AgreesStart(g, s, states, no, j.n, lim);
    } else {
      SimReached(j, g, s, states, no, lim, b, p - 1);
      assert s.x[p - 1] in s.x;
      AgreesStep(j, g, s, states, no, lim, b, p, Sim(j, s, b, p - 1));
    }
  }

  /** `compact` keeps the language. */
  lemma CompactMatches(j: Job, g: Net, states: seq<nat>, no: map<nat, nat>, lim: nat, b: nat, e: nat)
    requires Compactable(g, j.n.ncolors, lim) && IsCompact(g, states, no, j.n) && j.Wf(lim)
    requires b <= e <= |j.v.text|
    ensures j.Matches(b, e) <==> Accepts(g, SubjectOf(j, b, e))
  {
    var s := SubjectOf(j, b, e);
    SimMatches(j, b, e);
    SubjectColors(j, b, e, lim);
    SimReached(j, g, s, states, no, lim, b, |s.x|);
    assert states[j.n.post] == g.post;
  }
}
