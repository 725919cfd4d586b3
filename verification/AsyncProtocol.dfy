/** The protocol of asynchronous handlers (tclAsync.c) as steps, each one critical section of the mutex: any thread
    marks handlers, the owner creates, deletes and invokes them, also from within a callback, while the mutex is free.
    */
module AsyncProtocol {
  /** Handlers are named by the order of their creation. */
  datatype State = State(
    created: nat,
    listed: seq<nat>,
    ready: set<nat>,
    asyncReady: bool,
    asyncActive: bool,
    /** The callbacks running, the innermost last. */
    running: seq<nat>)

  /** `Invoked` is `Tcl_AsyncInvoke` up to the first callback or its end, `Returned` a callback's return up to the next. */
  datatype Event = Created | Marked(h: nat) | Invoked | Returned | Deleted(h: nat)

  datatype Option<T> = None | Some(value: T)

  const INITIAL := State(0, [], {}, false, false, [])

  /** The first ready handler of the list. */
  function Pick(listed: seq<nat>, ready: set<nat>): (r: Option<nat>)
    ensures r.Some? ==> r.value in listed && r.value in ready
    ensures r.None? <==> forall h :: h in listed ==> h !in ready
  {
    if listed == [] then None else if listed[0] in ready then Some(listed[0]) else Pick(listed[1..], ready)
  }

  /** One turn of the loop of `Tcl_AsyncInvoke`, the mutex held. */
  function Turn(s: State): State {
    match Pick(s.listed, s.ready)
    case None => s.(asyncActive := false)
    case Some(h) => s.(ready := s.ready - {h}, running := s.running + [h])
  }

  function Without(listed: seq<nat>, h: nat): (r: seq<nat>)
    ensures forall g :: g in r <==> g in listed && g != h
  {
    if listed == [] then [] else if listed[0] == h then Without(listed[1..], h) else [listed[0]] + Without(listed[1..], h)
  }

  /** A marked or deleted handler exists; a callback that returns was running. */
  predicate Enabled(s: State, e: Event) {
    match e
    case Marked(h) => h in s.listed
    case Deleted(h) => h in s.listed
    case Returned => s.running != []
    case _ => true
  }

  function Next(s: State, e: Event): State
    requires Enabled(s, e)
  {
    match e
    case Created => s.(created := s.created + 1, listed := s.listed + [s.created])
    case Marked(h) => s.(ready := s.ready + {h}, asyncReady := s.asyncReady || !s.asyncActive)
    case Invoked => if !s.asyncReady then s else Turn(s.(asyncReady := false, asyncActive := true))
    case Returned => Turn(s.(running := s.running[..|s.running| - 1]))
    case Deleted(h) => s.(listed := Without(s.listed, h), ready := s.ready - {h})
  }

  /** The handler a step sets running. */
  function Ran(s: State, e: Event): Option<nat> {
    if e.Returned? || (e.Invoked? && s.asyncReady) then Pick(s.listed, s.ready) else None
  }

  predicate Increasing(listed: seq<nat>) {
    forall i, j :: 0 <= i < j < |listed| ==> listed[i] < listed[j]
  }

  /** What every step keeps. */
  predicate Inv(s: State) {
    && Increasing(s.listed) && (forall h :: h in s.listed ==> h < s.created)
    && (forall h :: h in s.ready ==> h in s.listed)
    && (s.asyncActive ==> !s.asyncReady)
    && (s.ready != {} ==> s.asyncReady || s.asyncActive)
    && |s.running| == if s.asyncActive then 1 else 0
  }

  lemma {:induction false} WithoutIncreasing(listed: seq<nat>, h: nat)
    requires Increasing(listed)
    ensures Increasing(Without(listed, h))
  {
    if listed != [] {
      var rest := Without(listed[1..], h);
      WithoutIncreasing(listed[1..], h);
      assert forall i :: 0 <= i < |rest| ==> rest[i] in rest;
      assert forall g :: g in listed[1..] ==> listed[0] < g;
    }
  }

  lemma InvKept(s: State, e: Event)
    requires Inv(s) && Enabled(s, e)
    ensures Inv(Next(s, e))
  {
    if e.Deleted? {
      WithoutIncreasing(s.listed, e.h);
    } else if e.Created? {
      assert forall i :: 0 <= i < |s.listed| ==> s.listed[i] in s.listed;
    }
  }

  /** While a callback runs, another invocation does nothing. */
  lemma NestedInvoke(s: State)
    requires Inv(s) && s.asyncActive
    ensures Next(s, Invoked) == s && Ran(s, Invoked) == None
  {}

  lemma {:induction false} PickIsFirst(listed: seq<nat>, ready: set<nat>)
    requires Increasing(listed) && Pick(listed, ready).Some?
    ensures forall g :: g in listed && g in ready ==> Pick(listed, ready).value <= g
  {
    if listed[0] !in ready {
      PickIsFirst(listed[1..], ready);
    }
  }

  /** The handler set running is ready, and the earliest created of those. */
  lemma EarliestFirst(s: State, e: Event)
    requires Inv(s) && Enabled(s, e) && Ran(s, e).Some?
    ensures Ran(s, e).value in s.ready && forall g :: g in s.ready ==> Ran(s, e).value <= g
  {
    PickIsFirst(s.listed, s.ready);
  }

  // ----- whole runs

  predicate Run(es: seq<Event>, ss: seq<State>) {
    && |ss| == |es| + 1 && ss[0] == INITIAL
    && forall i :: 0 <= i < |es| ==> Enabled(ss[i], es[i]) && ss[i + 1] == Next(ss[i], es[i])
  }

  lemma {:induction false} RunInv(es: seq<Event>, ss: seq<State>, n: nat)
    requires Run(es, ss) && n <= |es|
    ensures Inv(ss[n])
  {
    if n > 0 {
      var m: nat := n - 1;
      RunInv(es, ss, m);
      InvKept(ss[m], es[m]);
      assert ss[m + 1] == Next(ss[m], es[m]);
    }
  }

  /** Handler h is run or deleted at step j. */
  predicate Served(es: seq<Event>, ss: seq<State>, j: nat, h: nat)
    requires Run(es, ss)
  {
    j < |es| && (Ran(ss[j], es[j]) == Some(h) || es[j] == Deleted(h))
  }

  lemma Stays(s: State, e: Event, h: nat)
    requires Inv(s) && Enabled(s, e) && h in s.ready && Ran(s, e) != Some(h) && e != Deleted(h)
    ensures h in Next(s, e).ready
  {}

  /** A mark stays until the handler is run or deleted. */
  lemma {:induction false} MarkStays(es: seq<Event>, ss: seq<State>, i: nat, n: nat, h: nat)
    requires Run(es, ss) && i < n <= |es| && es[i] == Marked(h) && forall j: nat :: i < j < n ==> !Served(es, ss, j, h)
    ensures h in ss[n].ready
  {
    var m: nat := n - 1;
    assert ss[m + 1] == Next(ss[m], es[m]);
    if i < m {
      MarkStays(es, ss, i, m, h);
      RunInv(es, ss, m);
      assert !Served(es, ss, m, h);
      Stays(ss[m], es[m], h);
    }
  }

  /** No mark is lost: when nothing is pending and no invocation is under way, every handler marked has since been run or deleted. */
  lemma NoMarkLost(es: seq<Event>, ss: seq<State>, i: nat, h: nat)
    requires Run(es, ss) && i < |es| && es[i] == Marked(h)
    ensures !ss[|es|].asyncReady && !ss[|es|].asyncActive ==> exists j: nat :: i < j && Served(es, ss, j, h)
  {
    if forall j: nat :: i < j < |es| ==> !Served(es, ss, j, h) {
      MarkStays(es, ss, i, |es|, h);
      RunInv(es, ss, |es|);
    }
  }

  lemma NewlyReady(s: State, e: Event, h: nat)
    requires Inv(s) && Enabled(s, e) && h in Next(s, e).ready
    ensures e == Marked(h) || (h in s.ready && Ran(s, e) != Some(h))
  {}

  /** A ready handler was marked, and not run since. */
  lemma {:induction false} ReadyWasMarked(es: seq<Event>, ss: seq<State>, n: nat, h: nat) returns (i: nat)
    requires Run(es, ss) && n <= |es| && h in ss[n].ready
    ensures i < n && es[i] == Marked(h) && forall j: nat :: i < j < n ==> Ran(ss[j], es[j]) != Some(h)
  {
    assert n > 0;
    var m: nat := n - 1;
    assert ss[m + 1] == Next(ss[m], es[m]);
    RunInv(es, ss, m);
    NewlyReady(ss[m], es[m], h);
    if es[m] == Marked(h) {
      i := m;
    } else {
      i := ReadyWasMarked(es, ss, m, h);
    }
  }

  /** A handler runs only for a mark that came after its last run. */
  lemma RunsForAMark(es: seq<Event>, ss: seq<State>, n: nat, h: nat)
    requires Run(es, ss) && n < |es| && Ran(ss[n], es[n]) == Some(h)
    ensures exists i: nat :: i < n && es[i] == Marked(h) && forall j: nat :: i < j < n ==> Ran(ss[j], es[j]) != Some(h)
  {
    RunInv(es, ss, n);
    var i := ReadyWasMarked(es, ss, n, h);
  }

  /** The invocation that begins at step i sets a callback running; until one returns, no other step does. */
  lemma {:induction false} StillRunning(es: seq<Event>, ss: seq<State>, i: nat, n: nat)
    requires Run(es, ss) && i < n <= |es| && Ran(ss[i], es[i]).Some?
    requires forall j :: i < j < n ==> es[j] != Returned
    ensures ss[n].asyncActive
  {
    var m: nat := n - 1;
    assert ss[m + 1] == Next(ss[m], es[m]);
    RunInv(es, ss, m);
    if i < m {
      StillRunning(es, ss, i, m);
    }
  }

  /** Callbacks never overlap, though invocations nest: between two that are set running the earlier returns. */
  lemma OneAtATime(es: seq<Event>, ss: seq<State>, i: nat, n: nat)
    requires Run(es, ss) && i < n < |es| && Ran(ss[i], es[i]).Some? && Ran(ss[n], es[n]).Some?
    ensures exists j :: i < j <= n && es[j] == Returned
  {
    if forall j :: i < j < n ==> es[j] != Returned {
      StillRunning(es, ss, i, n);
      RunInv(es, ss, n);
      if es[n] == Invoked {
        NestedInvoke(ss[n]);
      }
    }
  }

  /** An invocation ends with no handler ready: all marks made before have been followed by a run or a deletion. */
  lemma QuietAtTheEnd(es: seq<Event>, ss: seq<State>, n: nat)
    requires Run(es, ss) && n < |es| && ss[n].asyncActive && !ss[n + 1].asyncActive
    ensures es[n] == Returned && ss[n + 1].ready == {} && ss[n + 1].running == []
    ensures forall i: nat, h: nat :: i < n && es[i] == Marked(h) ==> exists j: nat :: i < j < n && Served(es, ss, j, h)
  {
    RunInv(es, ss, n);
    assert ss[n + 1] == Next(ss[n], es[n]);
    forall i: nat, h: nat | i < n && es[i] == Marked(h)
      ensures exists j: nat :: i < j < n && Served(es, ss, j, h)
    {
      if forall j: nat :: i < j < n ==> !Served(es, ss, j, h) {
        MarkStays(es, ss, i, n, h);
      }
    }
  }

  // ----- what `Tcl_AsyncReady` reports: whether a handler is ready, as promised

  /** A handler marked while a callback runs is ready and not reported. */
  lemma ReadyNotReported()
    ensures var es := [Created, Marked(0), Invoked, Marked(0)];
      exists ss: seq<State> :: Run(es, ss) && ss[4].ready != {} && !ss[4].asyncReady
  {
    var es := [Created, Marked(0), Invoked, Marked(0)];
    var ss := [INITIAL, State(1, [0], {}, false, false, []), State(1, [0], {0}, true, false, []),
      State(1, [0], {}, false, true, [0]), State(1, [0], {0}, false, true, [0])];
    assert Pick([0], {0}) == Some(0);
    assert Run(es, ss);
  }

  /** A ready handler is reported exactly while no invocation is under way. */
  lemma ReadyReported(es: seq<Event>, ss: seq<State>, n: nat)
    requires Run(es, ss) && n <= |es|
    ensures (ss[n].ready != {} ==> ss[n].asyncReady) <==> ss[n].ready == {} || !ss[n].asyncActive
  {
    RunInv(es, ss, n);
  }

  /** After the deletion of a ready handler one is reported and none is ready. */
  lemma ReportedNotReady()
    ensures var es := [Created, Marked(0), Deleted(0)];
      exists ss: seq<State> :: Run(es, ss) && ss[3].ready == {} && ss[3].asyncReady
  {
    var es := [Created, Marked(0), Deleted(0)];
    var ss := [INITIAL, State(1, [0], {}, false, false, []), State(1, [0], {0}, true, false, []), State(1, [], {}, true, false, [])];
    assert Run(es, ss);
  }

  /** Step i deletes the only ready handler, no invocation being under way, and up to step n none is marked and no
      invocation begins. */
  predicate LastDeleted(es: seq<Event>, ss: seq<State>, i: nat, n: nat)
    requires Run(es, ss) && n <= |es|
  {
    && i < n && es[i].Deleted? && ss[i].ready == {es[i].h} && !ss[i].asyncActive
    && forall j :: i < j < n ==> !es[j].Marked? && es[j] != Invoked
  }

  lemma {:induction false} DeletedStays(es: seq<Event>, ss: seq<State>, i: nat, n: nat)
    requires Run(es, ss) && n <= |es| && LastDeleted(es, ss, i, n)
    ensures ss[n].ready == {} && ss[n].asyncReady
  {
    var m: nat := n - 1;
    assert ss[m + 1] == Next(ss[m], es[m]);
    RunInv(es, ss, m);
    if i < m {
      DeletedStays(es, ss, i, m);
    }
  }

  lemma {:induction false} WasDeleted(es: seq<Event>, ss: seq<State>, n: nat) returns (i: nat)
    requires Run(es, ss) && n <= |es| && ss[n].ready == {} && ss[n].asyncReady
    ensures LastDeleted(es, ss, i, n)
  {
    assert n > 0;
    var m: nat := n - 1;
    assert ss[m + 1] == Next(ss[m], es[m]);
    RunInv(es, ss, m);
    if ss[m].ready == {} {
      i := WasDeleted(es, ss, m);
    } else {
      assert es[m].Deleted?;
      i := m;
    }
  }

  /** Nothing is reported while no handler is ready, except after such a deletion. */
  lemma NotReadyReported(es: seq<Event>, ss: seq<State>, n: nat)
    requires Run(es, ss) && n <= |es|
    ensures (ss[n].ready == {} ==> !ss[n].asyncReady) <==> forall i: nat :: !LastDeleted(es, ss, i, n)
  {
    if ss[n].ready == {} && ss[n].asyncReady {
      var i := WasDeleted(es, ss, n);
    } else if i: nat :| i < n && LastDeleted(es, ss, i, n) {
      DeletedStays(es, ss, i, n);
    }
  }
}
