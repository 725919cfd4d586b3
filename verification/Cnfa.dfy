/** Compacted NFAs (regguts.h) and what it means for one to match a stretch of text: plain simulation with state sets,
    lookahead constraints included. */
module Cnfas {

  /** An outarc; a color above `ncolors` is a lookahead constraint. */
  datatype Carc = Carc(co: nat, to: nat)

  datatype CState = CState(noprogress: bool, outs: seq<Carc>)

  datatype Cnfa = Cnfa(states: seq<CState>, ncolors: nat, haslacons: bool,
                       pre: nat, post: nat, bos: seq<nat>, eos: seq<nat>)
  {
    /** What `compact` guarantees of its result, for lookahead constraints numbered below `lim`: the post state is
        never left, and is entered neither from the pre state nor by a constraint; constraints do not touch the pre
        state. */
    ghost predicate Wf(lim: nat) {
      && |bos| == 2 && |eos| == 2
      && bos[0] < ncolors && bos[1] < ncolors && eos[0] < ncolors && eos[1] < ncolors
      && pre < |states| && post < |states| && pre != post
      && states[pre].noprogress
      && (forall i, k | 0 <= i < |states| && 0 <= k < |states[i].outs| :: WfArc(lim, i, states[i].outs[k]))
      && (PreUnentered() || LoopsOrPost())
    }

    ghost predicate WfArc(lim: nat, from: nat, a: Carc) {
      && a.to < |states| && from != post
      && (a.co > ncolors ==> haslacons && a.co - ncolors < lim && a.to != post && from != pre && a.to != pre)
      && (from == pre ==> a.to != post)
    }

    ghost predicate PreUnentered() {
      forall i, k | 0 <= i < |states| && 0 <= k < |states[i].outs| :: states[i].outs[k].to != pre
    }

    /** The pre state has a loop of this color. */
    ghost predicate PreLoop(co: nat) {
      pre < |states| && exists k :: 0 <= k < |states[pre].outs| && states[pre].outs[k] == Carc(co, pre)
    }

    /** A search NFA: any color that does not loop on the pre state leads only to the post state. */
    ghost predicate LoopsOrPost() {
      forall i, k | 0 <= i < |states| && 0 <= k < |states[i].outs| && states[i].outs[k].co <= ncolors ::
        PreLoop(states[i].outs[k].co) || states[i].outs[k].to == post
    }
  }

  /** A compiled lookahead constraint, positive or negative. */
  datatype Lacon = Lacon(cnfa: Cnfa, positive: bool)

  /** The subject of one match: the string, its color map, the execution flags and the lookahead constraints. */
  datatype Vars = Vars(text: seq<char>, cm: char -> nat, notbol: bool, noteol: bool, lacons: seq<Lacon>)

  /** A pure matching problem: one NFA over one string, with `la(k, p)` saying whether lookahead constraint k holds at
      position p. */
  datatype Job = Job(v: Vars, n: Cnfa, la: (nat, nat) -> bool)
  {
    ghost predicate Wf(lim: nat) {
      && n.Wf(lim)
      && forall i | 0 <= i < |v.text| :: v.cm(v.text[i]) < n.ncolors
    }

    /** Color of the character before position p. */
    function PrevColor(p: nat): nat
      requires |n.bos| == 2 && p <= |v.text|
    {
      if p == 0 then n.bos[if v.notbol then 0 else 1] else v.cm(v.text[p - 1])
    }

    /** Color of the character after position p. */
    function NextColor(p: nat): nat
      requires |n.eos| == 2 && p <= |v.text|
    {
      if p == |v.text| then n.eos[if v.noteol then 0 else 1] else v.cm(v.text[p])
    }

    /** States reached from S by one arc of color co. */
    ghost function Direct(S: set<nat>, co: nat): set<nat> {
      set i, k | i in S && i < |n.states| && 0 <= k < |n.states[i].outs| && n.states[i].outs[k].co == co
        :: n.states[i].outs[k].to
    }

    /** A lookahead constraint leading from x to y that holds at p. */
    ghost predicate LaconArc(p: nat, x: nat, k: nat, y: nat) {
      && x < |n.states| && k < |n.states[x].outs|
      && n.states[x].outs[k].to == y && n.states[x].outs[k].co > n.ncolors
      && la(n.states[x].outs[k].co - n.ncolors, p)
    }

    ghost predicate LaconEdge(p: nat, x: nat, y: nat) {
      exists k: nat :: LaconArc(p, x, k, y)
    }

    ghost predicate LaconPath(p: nat, path: seq<nat>) {
      |path| > 0 && forall i: nat | i < |path| - 1 :: LaconEdge(p, path[i], path[i + 1])
    }

    ghost predicate ReachedBy(p: nat, D: set<nat>, path: seq<nat>, q: nat) {
      LaconPath(p, path) && path[0] in D && path[|path| - 1] == q
    }

    ghost predicate InClosure(p: nat, D: set<nat>, q: nat) {
      exists path :: ReachedBy(p, D, path, q)
    }

    /** States reached from D by lookahead constraints that hold at p. */
    ghost function Closure(p: nat, D: set<nat>): set<nat> {
      set q: nat | q < |n.states| && InClosure(p, D, q)
    }

    ghost function Step(S: set<nat>, co: nat, p: nat): set<nat> {
      Closure(p, Direct(S, co))
    }

    /** The state set after starting at b and consuming the text up to e. */
    ghost function States(b: nat, e: nat): set<nat>
      requires |n.bos| == 2 && b <= e <= |v.text|
      decreases e
    {
      if e == b then Step({n.pre}, PrevColor(b), b)
      else Step(States(b, e - 1), v.cm(v.text[e - 1]), e)
    }

    /** The state set after additionally seeing what follows e. */
    ghost function After(b: nat, e: nat): set<nat>
      requires |n.bos| == 2 && |n.eos| == 2 && b <= e <= |v.text|
    {
      Step(States(b, e), NextColor(e), if e < |v.text| then e + 1 else e)
    }

    /** The NFA matches the text from b to e. */
    ghost predicate Matches(b: nat, e: nat) {
      |n.bos| == 2 && |n.eos| == 2 && b <= e <= |v.text| && n.post in After(b, e)
    }
  }

  /** Lookahead constraint k holds at p; a nested constraint has a smaller number. */
  ghost predicate LaconHolds(v: Vars, k: nat, p: nat)
    decreases k, 1
  {
    && k < |v.lacons|
    && v.lacons[k].positive == exists e: nat :: Job(v, v.lacons[k].cnfa, Oracle(v, k)).Matches(p, e)
  }

  /** The meaning of the constraints numbered below `lim`. */
  ghost function Oracle(v: Vars, lim: nat): (nat, nat) -> bool
    decreases lim, 0
  {
    (k: nat, p: nat) => k < lim && LaconHolds(v, k, p)
  }

  /** Every lookahead constraint (they are numbered from 1) is well formed and refers only to earlier ones. */
  ghost predicate WfLacons(v: Vars) {
    forall k | 1 <= k < |v.lacons| :: Job(v, v.lacons[k].cnfa, Oracle(v, k)).Wf(k)
  }

  // ----- the closure is the least closed superset

  lemma ClosureContains(j: Job, p: nat, D: set<nat>)
    requires forall q | q in D :: q < |j.n.states|
    ensures D <= j.Closure(p, D)
  {
    forall q | q in D
      ensures q in j.Closure(p, D)
    {
      assert j.ReachedBy(p, D, [q], q);
    }
  }

  lemma ClosureClosed(j: Job, p: nat, D: set<nat>, x: nat, y: nat)
    requires x in j.Closure(p, D) && j.LaconEdge(p, x, y) && y < |j.n.states|
    ensures y in j.Closure(p, D)
  {
    var path :| j.ReachedBy(p, D, path, x);
    assert j.ReachedBy(p, D, path + [y], y);
  }

  ghost predicate ClosedUnder(j: Job, p: nat, T: set<nat>) {
    forall x, y | x in T && j.LaconEdge(p, x, y) :: y in T
  }

  lemma {:induction false} PathStays(j: Job, p: nat, T: set<nat>, path: seq<nat>)
    requires j.LaconPath(p, path) && path[0] in T && ClosedUnder(j, p, T)
    ensures path[|path| - 1] in T
    decreases |path|
  {
    if |path| > 1 {
      var front := path[..|path| - 1];
      PathStays(j, p, T, front);
      assert j.LaconEdge(p, path[|path| - 2], path[|path| - 1]);
    }
  }

  lemma ClosureLeast(j: Job, p: nat, D: set<nat>, T: set<nat>)
    requires D <= T && ClosedUnder(j, p, T)
    ensures j.Closure(p, D) <= T
  {
    forall q | q in j.Closure(p, D)
      ensures q in T
    {
      var path :| j.ReachedBy(p, D, path, q);
      PathStays(j, p, T, path);
    }
  }

  lemma ClosureEmpty(j: Job, p: nat)
    ensures j.Closure(p, {}) == {}
  {}

  /** Once no state is left, nothing matches any more. */
  lemma {:induction false} DeadStates(j: Job, b: nat, e: nat, f: nat)
    requires |j.n.bos| == 2 && |j.n.eos| == 2 && b <= e <= f <= |j.v.text|
    requires j.States(b, e) == {}
    ensures j.States(b, f) == {} && !j.Matches(b, f)
    decreases f
  {
    if e < f {
      DeadStates(j, b, e, f - 1);
      DirectEmpty(j, j.v.cm(j.v.text[f - 1]));
      ClosureEmpty(j, f);
    }
    DirectEmpty(j, j.NextColor(f));
    ClosureEmpty(j, if f < |j.v.text| then f + 1 else f);
  }

  lemma DirectEmpty(j: Job, co: nat)
    ensures j.Direct({}, co) == {}
  {}

  ghost predicate NoProgress(n: Cnfa, S: set<nat>) {
    forall i | i in S && i < |n.states| :: n.states[i].noprogress
  }

  /** Constraints do not lead to the post state. */
  lemma ClosureNoPost(j: Job, lim: nat, p: nat, D: set<nat>)
    requires j.n.Wf(lim) && j.n.post !in D && forall q | q in D :: q < |j.n.states|
    ensures j.n.post !in j.Closure(p, D)
  {
    var T := j.Closure(p, D) - {j.n.post};
    ClosureContains(j, p, D);
    forall x, y | x in T && j.LaconEdge(p, x, y)
      ensures y in T
    {
      ClosureClosed(j, p, D, x, y);
    }
    ClosureLeast(j, p, D, T);
  }

  /** The post state is more than one step away from the pre state. */
  lemma PreNoPost(j: Job, lim: nat, co: nat, p: nat)
    requires j.n.Wf(lim)
    ensures j.n.post !in j.Step({j.n.pre}, co, p)
  {
    ClosureNoPost(j, lim, p, j.Direct({j.n.pre}, co));
  }
}
