/** The optimizer of NFAs (regc_nfa.c, `optimize`): what its loops leave when they come to an end. */
module NfaOptimize {
  import opened Nets
  import opened NetRewrites
  import opened NetSimplify
  import opened Nfas
  import opened NfaCleanup
  import opened NfaConstraints
  import opened NfaPush
  import opened NfaEmpties
  import opened NfaSearch

  /** The loops of the optimizer. */
  datatype Task = FixEmpties | PullBack | PushForward

  /** An arc on which a loop makes progress. */
  predicate Todo(t: Task, pre: nat, post: nat, a: Arc) {
    match t
    case FixEmpties => a.kind == EMPTY
    case PullBack => Backward(a.kind) && a.from != pre
    case PushForward => Forward(a.kind) && a.to != post
  }

  /** No arc is left to work on. */
  ghost predicate Finished(t: Task, g: Net) {
    forall a | a in g.arcs :: !Todo(t, g.pre, g.post, a)
  }

  /** What a loop works on. */
  ghost predicate Ready(t: Task, g: Net) {
    match t
    case FixEmpties => Shaped(g)
    case PullBack => Pullable(g)
    case PushForward => Pushable(g)
  }

  /** There is an EMPTY loop at an end of the arc. */
  ghost predicate AtLoop(arcs: set<Arc>, a: Arc) {
    a.from != a.to && exists l :: l in arcs && l.kind == EMPTY && l.from == l.to && (l.from == a.from || l.from == a.to)
  }

  /** A loop worked on arc a: it is gone, but for an EMPTY arc that a loop has brought back. */
  ghost predicate WorkedOn(t: Task, g: Net, h: Net, a: Arc) {
    a in g.arcs && Todo(t, g.pre, g.post, a) && (a !in h.arcs || (t == FixEmpties && AtLoop(g.arcs, a)))
  }

  /** One step of a loop. */
  method Work(n: Nfa, t: Task, a: Arc)
    requires n.Valid() && Ready(t, n.G()) && a in n.arcs && Todo(t, n.pre, n.post, a)
    modifies n
    ensures n.Valid() && Ready(t, n.G()) && SameLanguage(old(n.G()), n.G())
    ensures NothingNew(old(n.arcs), old(n.tmp), n.arcs, n.tmp)
    ensures WorkedOn(t, old(n.G()), n.G(), a)
  {
    match t
    case FixEmpties =>
      Unempty(n, a);
    case PullBack =>
      var _ := Pull(n, a);
    case PushForward =>
      var _ := Push(n, a);
  }

  ghost predicate Step(t: Task, g: Net, h: Net) {
    exists a :: WorkedOn(t, g, h, a)
  }

  /** From net to net by working on one arc each time. */
  ghost predicate IsRun(t: Task, run: seq<Net>) {
    |run| > 0 && forall i, k | 0 <= i < k < |run| && k == i + 1 :: Step(t, run[i], run[k])
  }

  /** In the run the arc is gone or worked on. */
  ghost predicate Tackled(t: Task, run: seq<Net>, a: Arc) {
    exists k: nat :: k < |run| && (a !in run[k].arcs || (k + 1 < |run| && WorkedOn(t, run[k], run[k + 1], a)))
  }

  lemma RunMore(t: Task, run: seq<Net>, a: Arc, h: Net)
    requires IsRun(t, run) && WorkedOn(t, run[|run| - 1], h, a)
    ensures IsRun(t, run + [h]) && Tackled(t, run + [h], a)
    ensures forall b | Tackled(t, run, b) :: Tackled(t, run + [h], b)
  {
    var more, last: nat := run + [h], |run| - 1;
    assert more[last] == run[last] && more[last + 1] == h;
    forall i, k | 0 <= i < k < |more| && k == i + 1
      ensures Step(t, more[i], more[k])
    {
      if k < |run| {
        assert Step(t, run[i], run[k]);
      }
    }
    forall b | Tackled(t, run, b)
      ensures Tackled(t, more, b)
    {
      var k: nat :| k < |run| && (b !in run[k].arcs || (k + 1 < |run| && WorkedOn(t, run[k], run[k + 1], b)));
      assert more[k] == run[k] && (k + 1 < |run| ==> more[k + 1] == run[k + 1]);
    }
  }

  lemma Gone(t: Task, run: seq<Net>, a: Arc)
    requires |run| > 0 && a !in run[|run| - 1].arcs
    ensures Tackled(t, run, a)
  {
    var last: nat := |run| - 1;
    assert a !in run[last].arcs;
  }

  /** The state whose chain an arc is found on: outarcs, but inarcs when pushing. */
  function Home(t: Task, a: Arc): nat {
    if t == PushForward then a.to else a.from
  }

  /** Is the arc there? */
  method Present(n: Nfa, a: Arc) returns (found: bool)
    requires n.Valid()
    ensures found <==> a in n.arcs
  {
    n.States();
    found := false;
    if a.from in n.states {
      n.Outs(a.from);
      found := a in n.outs[a.from];
    }
  }

  /** The run goes on from here and nothing tackled before is lost. */
  ghost predicate GoesOn(t: Task, run0: seq<Net>, run: seq<Net>, g: Net) {
    && IsRun(t, run) && |run0| > 0 && |run| >= |run0| && run[0] == run0[0] && run[|run| - 1] == g
    && forall b | Tackled(t, run0, b) :: Tackled(t, run, b)
  }

  /** One arc of a pass, worked on if it is still there. */
  method PassArc(n: Nfa, t: Task, a: Arc, ghost run0: seq<Net>) returns (progress: bool, ghost run: seq<Net>)
    requires n.Valid() && Ready(t, n.G()) && IsRun(t, run0) && run0[|run0| - 1] == n.G()
    modifies n
    ensures n.Valid() && Ready(t, n.G()) && SameLanguage(old(n.G()), n.G())
    ensures NothingNew(old(n.arcs), old(n.tmp), n.arcs, n.tmp)
    ensures GoesOn(t, run0, run, n.G()) && (if progress then |run| > |run0| else run == run0)
    ensures Todo(t, n.pre, n.post, a) ==> Tackled(t, run, a)
  {
    progress, run := false, run0;
    var still := Present(n, a);
    if !still {
      Gone(t, run0, a);
    } else if Todo(t, n.pre, n.post, a) {
      progress := true;
      Work(n, t, a);
      RunMore(t, run0, a, n.G());
      run := run0 + [n.G()];
    }
  }

  /** One state's part of a pass: the arcs on its chain at the start. */
  method PassState(n: Nfa, t: Task, s: nat, ghost run0: seq<Net>) returns (progress: bool, ghost run: seq<Net>)
    requires n.Valid() && Ready(t, n.G()) && s in n.states && IsRun(t, run0) && run0[|run0| - 1] == n.G()
    modifies n
    ensures n.Valid() && Ready(t, n.G()) && SameLanguage(old(n.G()), n.G())
    ensures NothingNew(old(n.arcs), old(n.tmp), n.arcs, n.tmp)
    ensures GoesOn(t, run0, run, n.G()) && (if progress then |run| > |run0| else run == run0)
    ensures forall a | a in old(n.arcs) && Home(t, a) == s && Todo(t, n.pre, n.post, a) :: Tackled(t, run, a)
  {
    n.Outs(s);
    n.Ins(s);
    var chain := if t == PushForward then n.ins[s] else n.outs[s];
    progress, run := false, run0;
    for i := 0 to |chain|
      invariant n.Valid() && Ready(t, n.G()) && SameLanguage(old(n.G()), n.G())
      invariant NothingNew(old(n.arcs), old(n.tmp), n.arcs, n.tmp)
      invariant GoesOn(t, run0, run, n.G()) && (if progress then |run| > |run0| else run == run0)
      invariant forall a | a in chain[..i] && Todo(t, n.pre, n.post, a) :: Tackled(t, run, a)
    {
      assert chain[..i + 1] == chain[..i] + [chain[i]];
      var more;
      more, run := PassArc(n, t, chain[i], run);
      progress := progress || more;
    }
    assert chain[..|chain|] == chain;
  }

  /** The same for a state that may have gone; what is not there at all counts as tackled. */
  method Visit(n: Nfa, t: Task, s: nat, ghost run0: seq<Net>) returns (progress: bool, ghost run: seq<Net>)
    requires n.Valid() && Ready(t, n.G()) && IsRun(t, run0) && run0[|run0| - 1] == n.G()
    modifies n
    ensures n.Valid() && Ready(t, n.G()) && SameLanguage(old(n.G()), n.G())
    ensures NothingNew(old(n.arcs), old(n.tmp), n.arcs, n.tmp)
    ensures GoesOn(t, run0, run, n.G()) && (if progress then |run| > |run0| else run == run0)
    ensures forall a | Home(t, a) == s && Todo(t, n.pre, n.post, a) :: Tackled(t, run, a)
  {
    n.States();
    progress, run := false, run0;
    forall a | a !in n.arcs
      ensures Tackled(t, run0, a)
    {
      Gone(t, run0, a);
    }
    if s in n.states {
      progress, run := PassState(n, t, s, run0);
    }
  }

  /** One pass over the states there are at its start. */
  method Pass(n: Nfa, t: Task) returns (progress: bool, ghost run: seq<Net>)
    requires n.Valid() && Ready(t, n.G())
    modifies n
    ensures n.Valid() && Ready(t, n.G()) && SameLanguage(old(n.G()), n.G())
    ensures NothingNew(old(n.arcs), old(n.tmp), n.arcs, n.tmp)
    ensures IsRun(t, run) && run[0] == old(n.G()) && run[|run| - 1] == n.G() && (progress <==> |run| > 1)
    ensures forall a | a in old(n.arcs) && Todo(t, n.pre, n.post, a) :: Tackled(t, run, a)
    ensures progress <==> !Finished(t, old(n.G()))
  {
    n.States();
    var states := n.states;
    progress, run := false, [n.G()];
    for i := 0 to |states|
      invariant n.Valid() && Ready(t, n.G()) && SameLanguage(old(n.G()), n.G())
      invariant NothingNew(old(n.arcs), old(n.tmp), n.arcs, n.tmp)
      invariant GoesOn(t, [old(n.G())], run, n.G()) && (progress <==> |run| > 1)
      invariant forall a | Home(t, a) in states[..i] && Todo(t, n.pre, n.post, a) :: Tackled(t, run, a)
    {
      assert states[..i + 1] == states[..i] + [states[i]];
      var more;
      more, run := Visit(n, t, states[i], run);
      progress := progress || more;
    }
    assert states[..|states|] == states;
    Passed(t, run);
  }

  /** A run that tackles everything there is to do has a step exactly if there is something to do. */
  lemma Passed(t: Task, run: seq<Net>)
    requires IsRun(t, run) && forall a | a in run[0].arcs && Todo(t, run[0].pre, run[0].post, a) :: Tackled(t, run, a)
    ensures |run| > 1 <==> !Finished(t, run[0])
  {
    if |run| > 1 {
      assert Step(t, run[0], run[1]);
    } else {
      assert run == [run[0]];
      NothingTackled(t, run[0]);
    }
  }

  lemma NothingTackled(t: Task, g: Net)
    ensures forall a | Tackled(t, [g], a) :: a !in g.arcs
  {}

  lemma RunsJoin(t: Task, run: seq<Net>, more: seq<Net>)
    requires IsRun(t, run) && IsRun(t, more) && run[|run| - 1] == more[0]
    ensures IsRun(t, run + more[1..])
  {
    var all := run + more[1..];
    forall i, k | 0 <= i < k < |all| && k == i + 1
      ensures Step(t, all[i], all[k])
    {
      if k < |run| {
        assert Step(t, run[i], run[k]);
      } else {
        assert Step(t, more[i + 1 - |run|], more[k + 1 - |run|]);
      }
    }
  }

  /** The loops of `fixempties`, `pullback` and `pushfwd`: passes until one makes no progress, or as many as the limit on
      states allows. Each pass before works on an arc at least. */
  method Loop(n: Nfa, t: Task, limit: nat) returns (settled: bool, ghost run: seq<Net>)
    requires n.Valid() && Ready(t, n.G())
    modifies n
    ensures n.Valid() && Ready(t, n.G()) && SameLanguage(old(n.G()), n.G())
    ensures NothingNew(old(n.arcs), old(n.tmp), n.arcs, n.tmp)
    ensures IsRun(t, run) && run[0] == old(n.G()) && run[|run| - 1] == n.G()
    ensures settled ==> Finished(t, n.G())
    ensures !settled ==> |run| > limit
    ensures Finished(t, old(n.G())) ==> n.G() == old(n.G()) && (limit > 0 ==> settled)
  {
    settled, run := false, [n.G()];
    var left := limit;
    while left > 0
      invariant n.Valid() && Ready(t, n.G()) && SameLanguage(old(n.G()), n.G())
      invariant NothingNew(old(n.arcs), old(n.tmp), n.arcs, n.tmp)
      invariant IsRun(t, run) && run[0] == old(n.G()) && run[|run| - 1] == n.G() && |run| > limit - left >= 0
      invariant Finished(t, old(n.G())) ==> left == limit && n.G() == old(n.G())
    {
      ghost var g := n.G();
      var progress;
      ghost var more;
      progress, more := Pass(n, t);
      RunsJoin(t, run, more);
      run := run + more[1..];
      if !progress {
        return true, run;
      }
      left := left - 1;
    }
  }

  /** A label of an arc now is one of an arc before. */
  lemma OldLabel(arcs0: set<Arc>, tmp0: map<nat, nat>, arcs: set<Arc>, tmp: map<nat, nat>, a: Arc) returns (b: Arc)
    requires NothingNew(arcs0, tmp0, arcs, tmp) && a in arcs
    ensures b in arcs0 && b.kind == a.kind && b.co == a.co
  {
    assert (a.kind, a.co) in Labels(arcs);
    b :| b in arcs0 && (b.kind, b.co) == (a.kind, a.co);
  }

  /** Properties of labels last. */
  lemma LabelsKept(g: Net, tmp0: map<nat, nat>, h: Net, tmp: map<nat, nat>, colors: seq<nat>, lim: nat)
    requires SameEnds(g, h) && NothingNew(g.arcs, tmp0, h.arcs, tmp)
    ensures CaretsKept(g) ==> CaretsKept(h)
    ensures DollarsKept(g) ==> DollarsKept(h)
    ensures NoneBackward(g) ==> NoneBackward(h)
    ensures NoneForward(g) ==> NoneForward(h)
    ensures Colored(g, colors, lim) ==> Colored(h, colors, lim)
  {
    forall a | a in h.arcs
      ensures exists b :: b in g.arcs && b.kind == a.kind && b.co == a.co
    {
      var b := OldLabel(g.arcs, tmp0, h.arcs, tmp, a);
    }
  }

  ghost predicate NoneBackward(g: Net) {
    forall a | a in g.arcs :: !Backward(a.kind)
  }

  ghost predicate NoneForward(g: Net) {
    forall a | a in g.arcs :: !Forward(a.kind)
  }

  /** Steps of a loop that did not come to an end. */
  ghost predicate WentOn(t: Task, run: seq<Net>, limit: nat) {
    IsRun(t, run) && |run| > limit
  }

  /** `pullback`. */
  method PullBackAll(n: Nfa, limit: nat, ghost colors: seq<nat>, ghost lim: nat) returns (settled: bool, ghost run: seq<Net>)
    requires n.Valid() && Pullable(n.G()) && DollarsKept(n.G()) && Colored(n.G(), colors, lim)
    modifies n
    ensures n.Valid() && Pushable(n.G()) && SameLanguage(old(n.G()), n.G()) && Colored(n.G(), colors, lim) && n.tmp.Keys <= old(n.tmp.Keys)
    ensures settled ==> NoneBackward(n.G())
    ensures !settled ==> WentOn(PullBack, run, limit)
    ensures NoneBackward(old(n.G())) && limit > 0 ==> settled
    ensures NoneForward(old(n.G())) ==> NoneForward(n.G())
  {
    settled, run := Loop(n, PullBack, limit);
    LabelsKept(old(n.G()), old(n.tmp), n.G(), n.tmp, colors, lim);
    if settled {
      ColorCarets(n);
    }
  }

  /** `pushfwd`, after that. */
  method PushForwardAll(n: Nfa, limit: nat, ghost colors: seq<nat>, ghost lim: nat) returns (settled: bool, ghost run: seq<Net>)
    requires n.Valid() && Pushable(n.G()) && NoneBackward(n.G()) && Colored(n.G(), colors, lim)
    modifies n
    ensures n.Valid() && SameLanguage(old(n.G()), n.G()) && Colored(n.G(), colors, lim) && n.tmp.Keys <= old(n.tmp.Keys)
    ensures settled ==> Optimized(n.G())
    ensures !settled ==> WentOn(PushForward, run, limit)
    ensures NoneForward(old(n.G())) && limit > 0 ==> settled
  {
    settled, run := Loop(n, PushForward, limit);
    LabelsKept(old(n.G()), old(n.tmp), n.G(), n.tmp, colors, lim);
    if settled {
      ColorDollars(n);
    }
  }

  /** Fewer arcs are still optimized. */
  lemma FewerOptimized(g: Net, h: Net, colors: seq<nat>, lim: nat)
    requires SameEnds(g, h) && h.arcs <= g.arcs
    ensures Shaped(g) ==> Shaped(h)
    ensures Optimized(g) ==> Optimized(h)
    ensures CaretsKept(g) && DollarsKept(g) && Colored(g, colors, lim) ==> CaretsKept(h) && DollarsKept(h) && Colored(h, colors, lim)
  {
    Fewer(g, h);
    DerivedKeeps(g, h);
  }

  /** `optimize`: if its loops come to an end within the limit, no EMPTY arc, constraint or useless state is left, and
      the NFA accepts what it did. They do where there is nothing to work on; where they do not, one of them has worked on
      an arc as often as the limit allows. */
  method Optimize(n: Nfa, limit: nat, ghost colors: seq<nat>, ghost lim: nat)
    returns (settled: bool, ghost t: Task, ghost run: seq<Net>)
    requires n.Valid() && n.tmp == map[] && Shaped(n.G()) && CaretsKept(n.G()) && DollarsKept(n.G()) && Colored(n.G(), colors, lim)
    modifies n
    ensures n.Valid() && SameLanguage(old(n.G()), n.G()) && Colored(n.G(), colors, lim)
    ensures settled ==> n.tmp == map[] && Optimized(n.G()) && forall x | x in n.states && !n.Flag(x) :: Useful(n.G(), x)
    ensures !settled ==> WentOn(t, run, limit)
    ensures Optimized(old(n.G())) && limit > 0 ==> settled
  {
    Cleanup(n);
    FewerOptimized(old(n.G()), n.G(), colors, lim);
    ghost var g1 := n.G();
    t := FixEmpties;
    settled, run := Loop(n, FixEmpties, limit);
    LabelsKept(g1, map[], n.G(), n.tmp, colors, lim);
    if settled {
      t := PullBack;
      settled, run := PullBackAll(n, limit, colors, lim);
    }
    if settled {
      t := PushForward;
      settled, run := PushForwardAll(n, limit, colors, lim);
    }
    if settled {
      ghost var g := n.G();
      Cleanup(n);
      FewerOptimized(g, n.G(), colors, lim);
    }
  }
}
