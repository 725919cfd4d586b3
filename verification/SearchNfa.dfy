/** Why the search NFA finds where a match may begin (regexec.c, regcomp.c). It is the main NFA with loops on the pre
    state, each state that follows the pre state being entered from nowhere else. */
module SearchNfa {
  import opened Cnfas

  ghost function WithoutLoops(arcs: seq<Carc>, pre: nat): seq<Carc> {
    if arcs == [] then []
    else (if arcs[0].to == pre then [] else [arcs[0]]) + WithoutLoops(arcs[1..], pre)
  }

  /** The NFA without the arcs that lead into its pre state. */
  ghost function Unlooped(s: Cnfa): Cnfa {
    s.(states := seq(|s.states|, i requires 0 <= i < |s.states| =>
         s.states[i].(outs := WithoutLoops(s.states[i].outs, s.pre))))
  }

  /** The pre state is entered only from itself, and states that mean no progress only from the pre state; the post
      state is none of them. */
  ghost predicate Split(s: Cnfa) {
    && s.post < |s.states| && !s.states[s.post].noprogress
    && forall i, k | 0 <= i < |s.states| && 0 <= k < |s.states[i].outs| && i != s.pre ::
         s.states[i].outs[k].to != s.pre
         && (s.states[i].outs[k].to < |s.states| ==> !s.states[s.states[i].outs[k].to].noprogress)
  }

  /** The pre state loops on whatever can come before a match. */
  ghost predicate Loops(j: Job)
    requires |j.n.bos| == 2
  {
    j.n.PreLoop(j.PrevColor(0)) && forall i | 0 <= i < |j.v.text| :: j.n.PreLoop(j.v.cm(j.v.text[i]))
  }

  /** No loops, and the pre state is left only at the beginning of the string. */
  ghost predicate Anchored(j: Job) {
    && j.n.PreUnentered() && j.n.pre < |j.n.states|
    && forall k, i | 0 <= k < |j.n.states[j.n.pre].outs| && 0 <= i < |j.v.text| ::
         j.n.states[j.n.pre].outs[k].co != j.v.cm(j.v.text[i])
  }

  /** js is a search problem for the matching problem jn. */
  ghost predicate SearchFor(js: Job, jn: Job, lim: nat) {
    && js.Wf(lim) && jn.Wf(lim) && js.v == jn.v && js.la == jn.la
    && Split(js.n) && (Loops(js) || Anchored(js))
    && forall b: nat, e: nat :: U(js).Matches(b, e) <==> jn.Matches(b, e)
  }

  ghost function U(js: Job): Job {
    js.(n := Unlooped(js.n))
  }

  // ----- steps, one state at a time

  /** q is one step away from x. */
  ghost predicate Steps(j: Job, x: nat, co: nat, p: nat, q: nat) {
    q in j.Step({x}, co, p)
  }

  lemma DirectPoint(j: Job, S: set<nat>, co: nat, q: nat)
    ensures q in j.Direct(S, co) <==> exists x :: x in S && q in j.Direct({x}, co)
  {
    if q in j.Direct(S, co) {
      var i, k :| i in S && i < |j.n.states| && 0 <= k < |j.n.states[i].outs| && j.n.states[i].outs[k].co == co
                  && j.n.states[i].outs[k].to == q;
      assert q in j.Direct({i}, co);
    }
  }

  /** Stepping a set is stepping its members. */
  lemma StepPoint(j: Job, S: set<nat>, co: nat, p: nat, q: nat)
    ensures q in j.Step(S, co, p) <==> exists x :: x in S && Steps(j, x, co, p, q)
  {
    var D := j.Direct(S, co);
    if q in j.Step(S, co, p) {
      var path :| j.ReachedBy(p, D, path, q);
      DirectPoint(j, S, co, path[0]);
      var x :| x in S && path[0] in j.Direct({x}, co);
      assert j.ReachedBy(p, j.Direct({x}, co), path, q);
      assert Steps(j, x, co, p, q);
    }
    if x :| x in S && Steps(j, x, co, p, q) {
      var path :| j.ReachedBy(p, j.Direct({x}, co), path, q);
      DirectPoint(j, S, co, path[0]);
      assert j.ReachedBy(p, D, path, q);
    }
  }

  // ----- the search NFA without its loops

  lemma {:induction false} WithoutLoopsKeeps(arcs: seq<Carc>, pre: nat, a: Carc)
    ensures a in WithoutLoops(arcs, pre) <==> a in arcs && a.to != pre
  {
    if arcs != [] {
      WithoutLoopsKeeps(arcs[1..], pre, a);
    }
  }

  lemma {:induction false} WithoutLoopsSame(arcs: seq<Carc>, pre: nat)
    requires forall k | 0 <= k < |arcs| :: arcs[k].to != pre
    ensures WithoutLoops(arcs, pre) == arcs
  {
    if arcs != [] {
      WithoutLoopsSame(arcs[1..], pre);
    }
  }

  lemma DirectUnlooped(js: Job, x: nat, co: nat, q: nat)
    ensures q in U(js).Direct({x}, co) <==> q in js.Direct({x}, co) && q != js.n.pre
  {
    if x < |js.n.states| {
      var arcs := js.n.states[x].outs;
      assert U(js).n.states[x].outs == WithoutLoops(arcs, js.n.pre);
      WithoutLoopsKeeps(arcs, js.n.pre, Carc(co, q));
      assert q in js.Direct({x}, co) <==> Carc(co, q) in arcs;
      assert q in U(js).Direct({x}, co) <==> Carc(co, q) in WithoutLoops(arcs, js.n.pre);
    }
  }

  lemma LaconUnlooped(js: Job, lim: nat, p: nat, x: nat, y: nat)
    requires js.Wf(lim)
    ensures U(js).LaconEdge(p, x, y) <==> js.LaconEdge(p, x, y)
    ensures js.LaconEdge(p, x, y) ==> x != js.n.pre && y != js.n.pre
  {
    if js.LaconEdge(p, x, y) {
      LaconKept(js, lim, p, x, y);
    }
    if U(js).LaconEdge(p, x, y) {
      var arcs := js.n.states[x].outs;
      var kept := WithoutLoops(arcs, js.n.pre);
      var i: nat :| U(js).LaconArc(p, x, i, y);
      WithoutLoopsKeeps(arcs, js.n.pre, kept[i]);
      var k :| 0 <= k < |arcs| && arcs[k] == kept[i];
      assert js.LaconArc(p, x, k, y);
    }
  }

  lemma LaconKept(js: Job, lim: nat, p: nat, x: nat, y: nat)
    requires js.Wf(lim) && js.LaconEdge(p, x, y)
    ensures U(js).LaconEdge(p, x, y) && x != js.n.pre && y != js.n.pre
  {
    var arcs := js.n.states[x].outs;
    var kept := WithoutLoops(arcs, js.n.pre);
    var k: nat :| js.LaconArc(p, x, k, y);
    assert js.n.WfArc(lim, x, arcs[k]);
    WithoutLoopsKeeps(arcs, js.n.pre, arcs[k]);
    var i :| 0 <= i < |kept| && kept[i] == arcs[k];
    assert U(js).LaconArc(p, x, i, y);
  }

  lemma PathUnlooped(js: Job, lim: nat, p: nat, path: seq<nat>)
    requires js.Wf(lim)
    ensures U(js).LaconPath(p, path) <==> js.LaconPath(p, path)
    ensures |path| > 1 && js.LaconPath(p, path) ==> path[0] != js.n.pre && path[|path| - 1] != js.n.pre
  {
    forall i: nat | i < |path| - 1
      ensures U(js).LaconEdge(p, path[i], path[i + 1]) <==> js.LaconEdge(p, path[i], path[i + 1])
      ensures js.LaconEdge(p, path[i], path[i + 1]) ==> path[i] != js.n.pre && path[i + 1] != js.n.pre
    {
      LaconUnlooped(js, lim, p, path[i], path[i + 1]);
    }
    if |path| > 1 && js.LaconPath(p, path) {
      assert js.LaconEdge(p, path[0], path[1]) && js.LaconEdge(p, path[|path| - 2], path[|path| - 1]);
    }
  }

  /** The loops change nothing but whether the pre state is reached. */
  lemma StepsUnlooped(js: Job, lim: nat, x: nat, co: nat, p: nat, q: nat)
    requires js.Wf(lim)
    ensures Steps(U(js), x, co, p, q) <==> Steps(js, x, co, p, q) && q != js.n.pre
  {
    var D, E := js.Direct({x}, co), U(js).Direct({x}, co);
    if Steps(U(js), x, co, p, q) {
      var path :| U(js).ReachedBy(p, E, path, q);
      PathUnlooped(js, lim, p, path);
      DirectUnlooped(js, x, co, path[0]);
      assert js.ReachedBy(p, D, path, q);
    }
    if Steps(js, x, co, p, q) && q != js.n.pre {
      var path :| js.ReachedBy(p, D, path, q);
      PathUnlooped(js, lim, p, path);
      DirectUnlooped(js, x, co, path[0]);
      assert U(js).ReachedBy(p, E, path, q);
    }
  }

  lemma PreStays(js: Job, lim: nat, co: nat, p: nat)
    requires js.Wf(lim) && js.n.PreLoop(co)
    ensures Steps(js, js.n.pre, co, p, js.n.pre)
  {
    var k :| 0 <= k < |js.n.states[js.n.pre].outs| && js.n.states[js.n.pre].outs[k] == Carc(co, js.n.pre);
    assert js.ReachedBy(p, js.Direct({js.n.pre}, co), [js.n.pre], js.n.pre);
  }

  /** State q is live at p in an attempt that starts at b. */
  ghost predicate Live(ju: Job, b: nat, p: nat, q: nat)
    requires |ju.n.bos| == 2 && p <= |ju.v.text|
  {
    b <= p && q in ju.States(b, p)
  }

  /** The search is at p in the pre state and in every state of every attempt so far. */
  ghost predicate Simulates(js: Job, p: nat)
    requires |js.n.bos| == 2 && p <= |js.v.text|
  {
    && js.n.pre in js.States(0, p)
    && (forall q | q != js.n.pre :: q in js.States(0, p) <==> exists b: nat :: Live(U(js), b, p, q))
    && forall b: nat | b <= p :: js.n.pre !in U(js).States(b, p)
  }

  /** A looping search simulates the attempts from all positions at once. */
  lemma {:induction false} AllStarts(js: Job, lim: nat, p: nat)
    requires js.Wf(lim) && Loops(js) && p <= |js.v.text|
    ensures Simulates(js, p)
    decreases p
  {
    var pre, ju, co := js.n.pre, U(js), js.PrevColor(p);
    var S := if p == 0 then {pre} else js.States(0, p - 1);
    if p > 0 {
      AllStarts(js, lim, p - 1);
    }
    assert js.States(0, p) == js.Step(S, co, p);
    PreStays(js, lim, co, p);
    StepPoint(js, S, co, p, pre);
    forall b: nat | b <= p
      ensures pre !in ju.States(b, p)
    {
      StepPoint(ju, if b == p then {pre} else ju.States(b, p - 1), co, p, pre);
      forall x ensures !Steps(ju, x, co, p, pre) { StepsUnlooped(js, lim, x, co, p, pre); }
    }
    forall q | q != pre
      ensures q in js.States(0, p) <==> exists b: nat :: Live(ju, b, p, q)
    {
      if p == 0 {
        FirstState(js, lim, q);
      } else {
        NextState(js, lim, p - 1, p, q);
      }
    }
  }

  lemma FirstState(js: Job, lim: nat, q: nat)
    requires js.Wf(lim) && q != js.n.pre
    ensures q in js.States(0, 0) <==> exists b: nat :: Live(U(js), b, 0, q)
  {
    var S, co := {js.n.pre}, js.PrevColor(0);
    StepPoint(js, S, co, 0, q);
    StepPoint(U(js), S, co, 0, q);
    forall x ensures Steps(js, x, co, 0, q) <==> Steps(U(js), x, co, 0, q) { StepsUnlooped(js, lim, x, co, 0, q); }
    assert Live(U(js), 0, 0, q) <==> q in js.States(0, 0);
  }

  lemma NextState(js: Job, lim: nat, r: nat, p: nat, q: nat)
    requires js.Wf(lim) && r + 1 == p <= |js.v.text| && Simulates(js, r) && q != js.n.pre
    ensures q in js.States(0, p) <==> exists b: nat :: Live(U(js), b, p, q)
  {
    var pre, ju := js.n.pre, U(js);
    var co := js.PrevColor(p);
    var S := js.States(0, r);
    assert js.States(0, p) == js.Step(S, co, p);
    StepPoint(js, S, co, p, q);
    if x :| x in S && Steps(js, x, co, p, q) {
      StepsUnlooped(js, lim, x, co, p, q);
      if x == pre {
        StepPoint(ju, {pre}, co, p, q);
        assert Live(ju, p, p, q);
      } else {
        var b: nat :| Live(ju, b, r, x);
        StepPoint(ju, ju.States(b, r), co, p, q);
        assert Live(ju, b, p, q);
      }
    }
    if b: nat :| Live(ju, b, p, q) {
      var T := if b == p then {pre} else ju.States(b, r);
      StepPoint(ju, T, co, p, q);
      var x :| x in T && Steps(ju, x, co, p, q);
      StepsUnlooped(js, lim, x, co, p, q);
      assert b < p ==> x != pre && Live(ju, b, r, x);
      assert x in S && Steps(js, x, co, p, q);
    }
  }

  // ----- what the search says about the main NFA

  /** With loops, the search matches up to e exactly if some attempt does. */
  lemma LoopedMatch(js: Job, lim: nat, e: nat)
    requires js.Wf(lim) && Loops(js) && e <= |js.v.text|
    ensures js.Matches(0, e) <==> exists b: nat :: U(js).Matches(b, e)
  {
    var ju, co, p := U(js), js.NextColor(e), if e < |js.v.text| then e + 1 else e;
    var pre, post := js.n.pre, js.n.post;
    AllStarts(js, lim, e);
    StepPoint(js, js.States(0, e), co, p, post);
    if js.Matches(0, e) {
      var x :| x in js.States(0, e) && Steps(js, x, co, p, post);
      PreNoPost(js, lim, co, p);
      StepsUnlooped(js, lim, x, co, p, post);
      var b: nat :| Live(ju, b, e, x);
      StepPoint(ju, ju.States(b, e), co, p, post);
      assert ju.Matches(b, e);
    }
    if b: nat :| ju.Matches(b, e) {
      StepPoint(ju, ju.States(b, e), co, p, post);
      var x :| x in ju.States(b, e) && Steps(ju, x, co, p, post);
      StepsUnlooped(js, lim, x, co, p, post);
      assert Live(ju, b, e, x);
    }
  }

  lemma UnloopedSame(js: Job)
    requires js.n.PreUnentered()
    ensures U(js) == js
  {
    forall i | 0 <= i < |js.n.states|
      ensures U(js).n.states[i] == js.n.states[i]
    {
      WithoutLoopsSame(js.n.states[i].outs, js.n.pre);
    }
    assert U(js).n.states == js.n.states;
  }

  /** An anchored NFA matches at the beginning of the string or not at all. */
  lemma AnchoredStart(j: Job, b: nat, e: nat)
    requires |j.n.bos| == 2 && |j.n.eos| == 2 && Anchored(j) && 0 < b <= |j.v.text|
    ensures !j.Matches(b, e)
  {
    var co := j.v.cm(j.v.text[b - 1]);
    assert j.Direct({j.n.pre}, co) == {};
    ClosureEmpty(j, b);
    assert j.States(b, b) == {};
    if b <= e <= |j.v.text| {
      DeadStates(j, b, b, e);
    }
  }

  /** The search finds a match ending at e exactly if one begins somewhere. */
  lemma SearchMatch(js: Job, jn: Job, lim: nat, e: nat)
    requires SearchFor(js, jn, lim) && e <= |js.v.text|
    ensures js.Matches(0, e) <==> exists b: nat :: jn.Matches(b, e)
  {
    if Loops(js) {
      LoopedMatch(js, lim, e);
      if b: nat :| jn.Matches(b, e) {
        assert U(js).Matches(b, e);
      }
    } else {
      UnloopedSame(js);
      forall b: nat | b > 0 ensures !jn.Matches(b, e) {
        if b <= e {
          AnchoredStart(js, b, e);
          assert !U(js).Matches(b, e);
        }
      }
      assert U(js).Matches(0, e) <==> jn.Matches(0, e);
    }
  }

  /** An arc of a split NFA from a state other than the start leads to a state that means progress. */
  lemma DirectProgress(js: Job, lim: nat, S: set<nat>, co: nat, y: nat)
    requires js.Wf(lim) && Split(js.n) && js.n.pre !in S && y in U(js).Direct(S, co)
    ensures y < |js.n.states| && !js.n.states[y].noprogress
  {
    DirectPoint(U(js), S, co, y);
    var x :| x in S && y in U(js).Direct({x}, co);
    DirectUnlooped(js, x, co, y);
    var k :| 0 <= k < |js.n.states[x].outs| && js.n.states[x].outs[k] == Carc(co, y);
    assert js.n.WfArc(lim, x, js.n.states[x].outs[k]);
  }

  lemma LaconProgress(js: Job, lim: nat, p: nat, x: nat, y: nat)
    requires js.Wf(lim) && Split(js.n) && x < |js.n.states| && !js.n.states[x].noprogress && U(js).LaconEdge(p, x, y)
    ensures y < |js.n.states| && !js.n.states[y].noprogress
  {
    LaconUnlooped(js, lim, p, x, y);
    var k: nat :| js.LaconArc(p, x, k, y);
    assert js.n.WfArc(lim, x, js.n.states[x].outs[k]);
  }

  /** A state some text was consumed to get to means progress. */
  lemma ProgressMade(js: Job, lim: nat, b: nat, p: nat, q: nat)
    requires js.Wf(lim) && Split(js.n) && b < p <= |js.v.text| && q in U(js).States(b, p)
    requires forall r: nat | b <= r <= p :: js.n.pre !in U(js).States(b, r)
    ensures !js.n.states[q].noprogress
  {
    var ju, co := U(js), js.v.cm(js.v.text[p - 1]);
    var S := ju.States(b, p - 1);
    var D := ju.Direct(S, co);
    var T := set x | 0 <= x < |js.n.states| && !js.n.states[x].noprogress;
    forall y | y in D
      ensures y in T
    {
      DirectProgress(js, lim, S, co, y);
    }
    forall x, y | x in T && ju.LaconEdge(p, x, y)
      ensures y in T
    {
      LaconProgress(js, lim, p, x, y);
    }
    ClosureLeast(ju, p, D, T);
  }

  /** While the search makes no progress, every earlier attempt has failed. */
  lemma ColdMatch(js: Job, jn: Job, lim: nat, cold: nat, b: nat, e: nat)
    requires SearchFor(js, jn, lim) && b < cold <= e <= |js.v.text|
    requires NoProgress(js.n, js.States(0, cold))
    ensures !jn.Matches(b, e)
  {
    var ju := U(js);
    if Loops(js) {
      forall r: nat | b <= r <= cold ensures js.n.pre !in ju.States(b, r) { AllStarts(js, lim, r); }
      AllStarts(js, lim, cold);
      forall q | q in ju.States(b, cold)
        ensures false
      {
        assert Live(ju, b, cold, q);
        ProgressMade(js, lim, b, cold, q);
      }
    } else {
      UnloopedSame(js);
      if b > 0 {
        AnchoredStart(js, b, e);
      } else {
        AnchoredPre(js, lim, cold);
        forall q | q in ju.States(0, cold)
          ensures false
        {
          ProgressMade(js, lim, 0, cold, q);
        }
      }
    }
    if b == 0 || Loops(js) {
      assert ju.States(b, cold) == {};
      DeadStates(ju, b, cold, e);
    }
    assert !ju.Matches(b, e);
  }

  /** Without loops the pre state is left at once. */
  lemma AnchoredPre(j: Job, lim: nat, p: nat)
    requires j.Wf(lim) && j.n.PreUnentered() && p <= |j.v.text|
    ensures forall r: nat | r <= p :: j.n.pre !in j.States(0, r)
  {
    UnloopedSame(j);
    forall r: nat | r <= p
      ensures j.n.pre !in j.States(0, r)
    {
      StepPoint(j, if r == 0 then {j.n.pre} else j.States(0, r - 1), j.PrevColor(r), r, j.n.pre);
      forall x ensures !Steps(j, x, j.PrevColor(r), r, j.n.pre) { StepsUnlooped(j, lim, x, j.PrevColor(r), r, j.n.pre); }
    }
  }
}
