/** Recursive traversals that mark states, and cleaning up with them (regc_nfa.c). */
module NfaCleanup {
  import opened Nets
  import opened NetRewrites
  import opened NetSimplify
  import opened Nfas
  import opened Folding

  const NULL := -1

  function Tmp(tmp: map<nat, nat>, x: nat): int {
    if x in tmp then tmp[x] else NULL
  }

  /** From one set of marks to another, some `okay` states have become `mark`. */
  ghost predicate Marked(t0: map<nat, nat>, t: map<nat, nat>, okay: int, mark: int) {
    forall x :: Tmp(t, x) == Tmp(t0, x) || (Tmp(t0, x) == okay && Tmp(t, x) == mark)
  }

  ghost predicate NewlyMarked(t0: map<nat, nat>, t: map<nat, nat>, okay: int, x: nat) {
    Tmp(t0, x) == okay && Tmp(t, x) != okay
  }

  /** Nothing `okay` follows a newly marked state, but perhaps s. */
  ghost predicate ClosedForward(arcs: set<Arc>, t0: map<nat, nat>, t: map<nat, nat>, okay: int, s: int) {
    forall a | a in arcs && NewlyMarked(t0, t, okay, a.from) && a.from != s :: Tmp(t, a.to) != okay
  }

  ghost predicate ClosedBackward(arcs: set<Arc>, t0: map<nat, nat>, t: map<nat, nat>, okay: int, s: int) {
    forall a | a in arcs && NewlyMarked(t0, t, okay, a.to) && a.to != s :: Tmp(t, a.from) != okay
  }

  ghost function Waiting(states: seq<nat>, tmp: map<nat, nat>, okay: int): set<nat> {
    set x | x in states && Tmp(tmp, x) == okay
  }

  method SetTmp(n: Nfa, s: nat, mark: nat)
    requires n.Valid() && s in n.states
    modifies n`tmp
    ensures n.Valid() && n.tmp == old(n.tmp)[s := mark]
  {
    n.Unseal();
    n.tmp := n.tmp[s := mark];
    n.Seal();
  }

  method ClearTmp(n: Nfa, s: nat)
    requires n.Valid() && s in n.states
    modifies n`tmp
    ensures n.Valid() && n.tmp == old(n.tmp) - {s}
  {
    n.Unseal();
    n.tmp := n.tmp - {s};
    n.Seal();
  }

  /** `markreachable`: mark the `okay` states reachable from s by way of `okay` states. */
  method MarkReachable(n: Nfa, s: nat, okay: int, mark: nat)
    requires n.Valid() && s in n.states && okay != mark
    modifies n`tmp
    ensures n.Valid() && Marked(old(n.tmp), n.tmp, okay, mark) && Tmp(n.tmp, s) != okay
    ensures ClosedForward(n.arcs, old(n.tmp), n.tmp, okay, NULL)
    ensures forall x | NewlyMarked(old(n.tmp), n.tmp, okay, x) :: Connected(n.G(), s, x)
    decreases Waiting(n.states, n.tmp, okay)
  {
    if Tmp(n.tmp, s) != okay {
      return;
    }
    SetTmp(n, s, mark);
    ConnectedSelf(n.G(), s);
    n.Outs(s);
    var chain := n.outs[s];
    for i := 0 to |chain|
      invariant n.Valid() && Marked(old(n.tmp), n.tmp, okay, mark) && Tmp(n.tmp, s) == mark
      invariant ClosedForward(n.arcs, old(n.tmp), n.tmp, okay, s)
      invariant forall k | 0 <= k < i :: Tmp(n.tmp, chain[k].to) != okay
      invariant forall x | NewlyMarked(old(n.tmp), n.tmp, okay, x) :: Connected(n.G(), s, x)
    {
      var a := chain[i];
      assert a in n.arcs;
      n.Ends(a);
      ghost var t := n.tmp;
      assert s in Waiting(n.states, old(n.tmp), okay) && Waiting(n.states, t, okay) <= Waiting(n.states, old(n.tmp), okay) - {s};
      MarkReachable(n, a.to, okay, mark);
      ConnectedArc(n.G(), a);
      forall x | NewlyMarked(old(n.tmp), n.tmp, okay, x)
        ensures Connected(n.G(), s, x)
      {
        if NewlyMarked(t, n.tmp, okay, x) {
          ConnectedJoin(n.G(), s, a.to, x);
        } else {
          assert NewlyMarked(old(n.tmp), t, okay, x);
        }
      }
      ForwardJoin(n.arcs, old(n.tmp), t, n.tmp, okay, mark, s);
    }
    forall a | a in n.arcs && a.from == s
      ensures Tmp(n.tmp, a.to) != okay
    {
      assert a in chain;
    }
  }

  lemma ForwardJoin(arcs: set<Arc>, t0: map<nat, nat>, t1: map<nat, nat>, t: map<nat, nat>, okay: int, mark: int, s: nat)
    requires Marked(t0, t1, okay, mark) && Marked(t1, t, okay, mark) && okay != mark
    requires ClosedForward(arcs, t0, t1, okay, s) && ClosedForward(arcs, t1, t, okay, NULL)
    ensures Marked(t0, t, okay, mark) && ClosedForward(arcs, t0, t, okay, s)
  {
    forall a | a in arcs && NewlyMarked(t0, t, okay, a.from) && a.from != s
      ensures Tmp(t, a.to) != okay
    {
      assert NewlyMarked(t1, t, okay, a.from) || NewlyMarked(t0, t1, okay, a.from);
    }
  }

  /** `markcanreach`: mark the `okay` states from which s is reachable by way of `okay` states. */
  method MarkCanReach(n: Nfa, s: nat, okay: int, mark: nat)
    requires n.Valid() && s in n.states && okay != mark
    modifies n`tmp
    ensures n.Valid() && Marked(old(n.tmp), n.tmp, okay, mark) && Tmp(n.tmp, s) != okay
    ensures ClosedBackward(n.arcs, old(n.tmp), n.tmp, okay, NULL)
    ensures forall x | NewlyMarked(old(n.tmp), n.tmp, okay, x) :: Connected(n.G(), x, s)
    decreases Waiting(n.states, n.tmp, okay)
  {
    if Tmp(n.tmp, s) != okay {
      return;
    }
    SetTmp(n, s, mark);
    ConnectedSelf(n.G(), s);
    n.Ins(s);
    var chain := n.ins[s];
    for i := 0 to |chain|
      invariant n.Valid() && Marked(old(n.tmp), n.tmp, okay, mark) && Tmp(n.tmp, s) == mark
      invariant ClosedBackward(n.arcs, old(n.tmp), n.tmp, okay, s)
      invariant forall k | 0 <= k < i :: Tmp(n.tmp, chain[k].from) != okay
      invariant forall x | NewlyMarked(old(n.tmp), n.tmp, okay, x) :: Connected(n.G(), x, s)
    {
      var a := chain[i];
      assert a in n.arcs;
      n.Ends(a);
      ghost var t := n.tmp;
      assert s in Waiting(n.states, old(n.tmp), okay) && Waiting(n.states, t, okay) <= Waiting(n.states, old(n.tmp), okay) - {s};
      MarkCanReach(n, a.from, okay, mark);
      ConnectedArc(n.G(), a);
      forall x | NewlyMarked(old(n.tmp), n.tmp, okay, x)
        ensures Connected(n.G(), x, s)
      {
        if NewlyMarked(t, n.tmp, okay, x) {
          ConnectedJoin(n.G(), x, a.from, s);
        } else {
          assert NewlyMarked(old(n.tmp), t, okay, x);
        }
      }
      BackwardJoin(n.arcs, old(n.tmp), t, n.tmp, okay, mark, s);
    }
    forall a | a in n.arcs && a.to == s
      ensures Tmp(n.tmp, a.from) != okay
    {
      assert a in chain;
    }
  }

  lemma BackwardJoin(arcs: set<Arc>, t0: map<nat, nat>, t1: map<nat, nat>, t: map<nat, nat>, okay: int, mark: int, s: nat)
    requires Marked(t0, t1, okay, mark) && Marked(t1, t, okay, mark) && okay != mark
    requires ClosedBackward(arcs, t0, t1, okay, s) && ClosedBackward(arcs, t1, t, okay, NULL)
    ensures Marked(t0, t, okay, mark) && ClosedBackward(arcs, t0, t, okay, s)
  {
    forall a | a in arcs && NewlyMarked(t0, t, okay, a.to) && a.to != s
      ensures Tmp(t, a.from) != okay
    {
      assert NewlyMarked(t1, t, okay, a.to) || NewlyMarked(t0, t1, okay, a.to);
    }
  }

  /** No mark follows a newly cleared state, but perhaps s. */
  ghost predicate ClearForward(arcs: set<Arc>, t0: map<nat, nat>, t: map<nat, nat>, s: int) {
    forall a | a in arcs && a.from in t0 && a.from !in t && a.from != s :: a.to !in t
  }

  /** `cleartraverse`: clear the marks of the states reachable from s by way of marked states. */
  method ClearTraverse(n: Nfa, s: nat)
    requires n.Valid() && s in n.states
    modifies n`tmp
    ensures n.Valid() && n.tmp.Keys <= old(n.tmp.Keys) && s !in n.tmp
    ensures forall x | x in n.tmp :: n.tmp[x] == old(n.tmp)[x]
    ensures ClearForward(n.arcs, old(n.tmp), n.tmp, NULL)
    decreases n.tmp.Keys
  {
    if s !in n.tmp {
      return;
    }
    ClearTmp(n, s);
    n.Outs(s);
    var chain := n.outs[s];
    for i := 0 to |chain|
      invariant n.Valid() && n.tmp.Keys <= old(n.tmp.Keys) - {s}
      invariant forall x | x in n.tmp :: n.tmp[x] == old(n.tmp)[x]
      invariant ClearForward(n.arcs, old(n.tmp), n.tmp, s)
      invariant forall k | 0 <= k < i :: chain[k].to !in n.tmp
    {
      assert chain[i] in n.arcs;
      n.Ends(chain[i]);
      assert s in old(n.tmp.Keys);
      ClearTraverse(n, chain[i].to);
    }
    forall a | a in n.arcs && a.from == s
      ensures a.to !in n.tmp
    {
      assert a in chain;
    }
  }

  // ----- the whole cleanup

  /** A set of states that contains x and everything after its members contains what x leads to. */
  lemma {:induction false} WayForward(g: Net, S: set<nat>, x: nat, y: nat, way: seq<Arc>)
    requires Way(g, x, y, way) && x in S && forall a | a in g.arcs && a.from in S :: a.to in S
    ensures y in S
    decreases |way|
  {
    if way != [] {
      WayForward(g, S, way[0].to, y, way[1..]);
    }
  }

  /** And one closed the other way, among what is reachable, contains what leads to y. */
  lemma {:induction false} WayBackward(g: Net, S: set<nat>, x: nat, y: nat, way: seq<Arc>)
    requires Way(g, x, y, way) && y in S && Connected(g, g.pre, x)
    requires forall a | a in g.arcs && a.to in S && Connected(g, g.pre, a.from) :: a.from in S
    ensures x in S
    decreases |way|
  {
    if way != [] {
      ConnectedArc(g, way[0]);
      ConnectedJoin(g, g.pre, x, way[0].to);
      WayBackward(g, S, way[0].to, y, way[1..]);
    }
  }

  /** Ways between useful states stay. */
  lemma {:induction false} WayKept(g: Net, h: Net, x: nat, y: nat, way: seq<Arc>)
    requires Way(g, x, y, way) && Connected(g, g.pre, x) && Connected(g, y, g.post)
    requires forall a | a in g.arcs && Useful(g, a.from) && Useful(g, a.to) :: a in h.arcs
    ensures Way(h, x, y, way)
    decreases |way|
  {
    if way != [] {
      var z := way[0].to;
      ConnectedArc(g, way[0]);
      ConnectedJoin(g, g.pre, x, z);
      WayKept(g, h, z, y, way[1..]);
      assert Connected(g, z, y);
      ConnectedJoin(g, z, y, g.post);
      ConnectedJoin(g, x, z, g.post);
    }
  }

  lemma UsefulKept(g: Net, h: Net, x: nat)
    requires SameEnds(g, h) && Useful(g, x)
    requires forall a | a in g.arcs && Useful(g, a.from) && Useful(g, a.to) :: a in h.arcs
    ensures Useful(h, x)
  {
    ConnectedSelf(g, g.pre);
    ConnectedSelf(g, g.post);
    var v, w :| Way(g, g.pre, x, v) && Way(g, x, g.post, w);
    WayKept(g, h, g.pre, x, v);
    WayKept(g, h, x, g.post, w);
  }

  /** Mark the states on ways from start to end, with the end; other marks name the start. */
  ghost predicate MarksUseful(g: Net, states: seq<nat>, tmp: map<nat, nat>) {
    && (forall x | x in states :: Tmp(tmp, x) == g.post <==> Useful(g, x))
    && (forall x | x in tmp :: tmp[x] == g.post || tmp[x] == g.pre)
    && (g.post in tmp ==> tmp[g.post] == g.post)
  }

  /** Use the start to mark reachable states, then the end to mark those that can reach it. */
  method MarkUseful(n: Nfa)
    requires n.Valid() && n.tmp == map[] && n.pre != n.post
    modifies n`tmp
    ensures n.Valid() && MarksUseful(n.G(), n.states, n.tmp)
  {
    ghost var g := n.G();
    MarkReachable(n, n.pre, NULL, n.pre);
    ghost var t := n.tmp;
    ReachableMarks(g, t);
    MarkCanReach(n, n.post, n.pre, n.post);
    forall x | x in n.states
      ensures Tmp(n.tmp, x) == n.post <==> Useful(g, x)
    {
      assert Tmp(t, x) == NULL || Tmp(t, x) == n.pre;
      if Useful(g, x) {
        UsefulMark(g, t, n.tmp, x);
      }
      if Tmp(n.tmp, x) == n.post {
        assert NewlyMarked(t, n.tmp, n.pre, x);
      }
    }
    forall x | x in n.tmp
      ensures n.tmp[x] == n.post || n.tmp[x] == n.pre
    {
      assert Tmp(n.tmp, x) == Tmp(t, x) || Tmp(n.tmp, x) == n.post;
    }
  }

  lemma ReachableMarks(g: Net, t: map<nat, nat>)
    requires Marked(map[], t, NULL, g.pre) && Tmp(t, g.pre) != NULL
    requires ClosedForward(g.arcs, map[], t, NULL, NULL)
    requires forall x | NewlyMarked(map[], t, NULL, x) :: Connected(g, g.pre, x)
    ensures forall x :: Tmp(t, x) == (if Connected(g, g.pre, x) then g.pre else NULL)
  {
    forall x
      ensures Tmp(t, x) == (if Connected(g, g.pre, x) then g.pre else NULL)
    {
      if Connected(g, g.pre, x) {
        var way :| Way(g, g.pre, x, way);
        forall a | a in g.arcs && a.from in t.Keys
          ensures a.to in t.Keys
        {
          assert NewlyMarked(map[], t, NULL, a.from);
        }
        WayForward(g, t.Keys, g.pre, x, way);
      } else {
        assert !NewlyMarked(map[], t, NULL, x);
      }
    }
  }

  lemma UsefulMark(g: Net, t: map<nat, nat>, u: map<nat, nat>, x: nat)
    requires forall y :: Tmp(t, y) == (if Connected(g, g.pre, y) then g.pre else NULL)
    requires Marked(t, u, g.pre, g.post) && Tmp(u, g.post) != g.pre && ClosedBackward(g.arcs, t, u, g.pre, NULL)
    requires Useful(g, x) && g.pre != g.post
    ensures Tmp(u, x) == g.post
  {
    var way :| Way(g, x, g.post, way);
    var S := set y | y in u && u[y] == g.post;
    ConnectedJoin(g, g.pre, x, g.post);
    assert Tmp(t, g.post) == g.pre && g.post in S;
    forall a | a in g.arcs && a.to in S && Connected(g, g.pre, a.from)
      ensures a.from in S
    {
      assert Tmp(t, a.from) == g.pre && Tmp(t, a.to) != g.post;
      assert NewlyMarked(t, u, g.pre, a.to);
    }
    WayBackward(g, S, x, g.post, way);
  }

  /** After dropping what is useless, clearing from the start on clears every mark. */
  lemma AllCleared(g: Net, h: Net, states: seq<nat>, t: map<nat, nat>, u: map<nat, nat>, x: nat)
    requires SameEnds(g, h) && h.arcs <= g.arcs && MarksUseful(g, states, t) && x in t
    requires forall y | y in t :: y in states
    requires forall y | y in states :: Stays(g, y)
    requires forall a | a in h.arcs :: a.from in states && a.to in states
    requires forall a | a in g.arcs && Useful(g, a.from) && Useful(g, a.to) :: a in h.arcs
    requires u.Keys <= t.Keys && g.pre !in u && ClearForward(h.arcs, t, u, NULL)
    ensures x !in u
  {
    if x != g.pre {
      var S := set y | y in states && Useful(g, y) && y !in u;
      UsefulKept(g, h, x);
      var way :| Way(h, g.pre, x, way);
      ConnectedSelf(g, g.pre);
      ConnectedJoin(g, g.pre, x, g.post);
      StillUseful(g, states, S, u, h, t);
      if g.pre in states {
        WayForward(h, S, g.pre, x, way);
      }
    }
  }

  lemma StillUseful(g: Net, states: seq<nat>, S: set<nat>, u: map<nat, nat>, h: Net, t: map<nat, nat>)
    requires SameEnds(g, h) && h.arcs <= g.arcs && MarksUseful(g, states, t)
    requires forall y | y in states :: Stays(g, y)
    requires forall a | a in h.arcs :: a.from in states && a.to in states
    requires ClearForward(h.arcs, t, u, NULL) && S == (set y | y in states && Useful(g, y) && y !in u)
    ensures forall a | a in h.arcs && a.from in S :: a.to in S
  {
    forall a | a in h.arcs && a.from in S
      ensures a.to in S
    {
      ConnectedArc(g, a);
      ConnectedJoin(g, g.pre, a.from, a.to);
      ConnectedSelf(g, g.pre);
      ConnectedSelf(g, g.post);
      ConnectedJoin(g, g.pre, a.from, g.post);
      assert Useful(g, a.to);
      assert a.from in t;
    }
  }

  /** `cleanup`: what is left, other than the start and the end, are exactly the states on ways from the one to the
      other. */
  method Cleanup(n: Nfa)
    requires n.Valid() && n.tmp == map[] && n.pre != n.post
    modifies n
    ensures n.Valid() && n.tmp == map[] && n.arcs <= old(n.arcs)
    ensures forall x :: x in n.states <==> x in old(n.states) && Stays(old(n.G()), x)
    ensures forall x | x in n.states && !n.Flag(x) :: Useful(n.G(), x)
    ensures SameLanguage(old(n.G()), n.G())
  {
    ghost var g := n.G();
    MarkUseful(n);
    DropMarkless(n, g);
    Trimmed(g, n);
    ghost var t := n.tmp;
    n.States();
    ClearTraverse(n, n.pre);
    forall x | x in t
      ensures x !in n.tmp
    {
      AllCleared(g, n.G(), n.states, t, n.tmp, x);
    }
    assert n.tmp == map[];
  }

  lemma Trimmed(g: Net, n: Nfa)
    requires SameEnds(g, n.G()) && n.arcs <= g.arcs
    requires forall a | a in g.arcs && Useful(g, a.from) && Useful(g, a.to) :: a in n.arcs
    requires forall x | x in n.states :: Stays(g, x)
    ensures SameLanguage(g, n.G())
    ensures forall x | x in n.states && !n.Flag(x) :: Useful(n.G(), x)
  {
    Trim(g, n.G());
    forall x | x in n.states && !n.Flag(x)
      ensures Useful(n.G(), x)
    {
      UsefulKept(g, n.G(), x);
    }
  }

  ghost predicate Stays(g: Net, x: nat) {
    x == g.pre || x == g.post || Useful(g, x)
  }

  /** The first i states of the chain have been dropped unless they stay. */
  ghost predicate DroppedTo(g: Net, chain: seq<nat>, i: nat, states: seq<nat>, arcs: set<Arc>) {
    i <= |chain| && forall u {:trigger Glance(u)} :: Glance(u) ==>
    && arcs <= g.arcs
    && (forall a | a in g.arcs && a !in arcs :: !Useful(g, a.from) || !Useful(g, a.to))
    && forall x :: x in states <==> x in chain && (x in chain[i..] || Stays(g, x))
  }

  lemma DropNext(g: Net, chain: seq<nat>, i: nat, states: seq<nat>, arcs: set<Arc>, states': seq<nat>, arcs': set<Arc>)
    requires DroppedTo(g, chain, i, states, arcs) && i < |chain| && Distinct(chain)
    requires if Stays(g, chain[i]) then states' == states && arcs' == arcs else
      && (forall x :: x in states' <==> x in states && x != chain[i])
      && arcs' == arcs - Into(arcs, chain[i]) - OutOf(arcs, chain[i])
    ensures DroppedTo(g, chain, i + 1, states', arcs')
  {
    assert Glance(0);
    assert chain[i..] == [chain[i]] + chain[i + 1..];
    assert chain[i] !in chain[i + 1..];
  }

  lemma InChain(g: Net, chain: seq<nat>, i: nat, states: seq<nat>, arcs: set<Arc>)
    requires DroppedTo(g, chain, i, states, arcs) && i < |chain|
    ensures chain[i] in states
  {
    assert Glance(0);
    assert chain[i] in chain[i..];
  }

  lemma AllDropped(g: Net, chain: seq<nat>, states: seq<nat>, arcs: set<Arc>)
    requires DroppedTo(g, chain, |chain|, states, arcs)
    ensures arcs <= g.arcs && (forall a | a in g.arcs && Useful(g, a.from) && Useful(g, a.to) :: a in arcs)
    ensures forall x :: x in states <==> x in chain && Stays(g, x)
  {
    assert Glance(0);
  }

  /** Drop the states not marked, the start and the end excepted. */
  method DropMarkless(n: Nfa, ghost g: Net)
    requires n.Valid() && MarksUseful(g, n.states, n.tmp) && n.pre != n.post && n.G() == g
    modifies n
    ensures n.Valid() && SameEnds(g, n.G()) && n.arcs <= g.arcs
    ensures forall a | a in g.arcs && Useful(g, a.from) && Useful(g, a.to) :: a in n.arcs
    ensures forall x :: x in n.states <==> x in old(n.states) && Stays(g, x)
    ensures MarksUseful(g, n.states, n.tmp)
  {
    var chain := n.states;
    ghost var t := n.tmp;
    n.States();
    for i := 0 to |chain|
      invariant n.Valid() && SameEnds(g, n.G()) && DroppedTo(g, chain, i, n.states, n.arcs)
      invariant forall x | x in n.states :: Tmp(n.tmp, x) == Tmp(t, x)
      invariant forall x | x in n.tmp :: x in t && n.tmp[x] == t[x]
    {
      var s := chain[i];
      InChain(g, chain, i, n.states, n.arcs);
      ghost var states, arcs := n.states, n.arcs;
      if Tmp(n.tmp, s) != n.post && !n.Flag(s) {
        n.DropState(s);
      }
      DropNext(g, chain, i, states, arcs, n.states, n.arcs);
    }
    AllDropped(g, chain, n.states, n.arcs);
  }
}
