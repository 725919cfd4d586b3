/** Turning an optimized NFA into a search NFA (regcomp.c): `makesearch`. */
module NfaSearch {
  import opened Nets
  import opened NetRewrites
  import opened Nfas

  const NIL := -1

  /** The NFA without arcs into its start. */
  ghost function Unloop(g: Net): Net {
    g.(arcs := set a | a in g.arcs && a.to != g.pre)
  }

  /** Optimized: only colors and lookahead constraints are left. */
  ghost predicate Optimized(g: Net) {
    Shaped(g) && forall a | a in g.arcs :: a.kind == PLAIN || a.kind == LACON
  }

  /** Arcs into x from elsewhere than the start. */
  ghost function Others(g: Net, arcs: set<Arc>, x: nat): set<Arc> {
    set a | a in arcs && a.to == x && a.from != g.pre
  }

  /** x has been split: z leads wherever x does and takes over all inarcs not from the start. */
  ghost function SplitArcs(g: Net, x: nat, z: nat): set<Arc> {
    var more := g.arcs + Resourced(g.arcs, x, z);
    more - Others(g, more, x) + Redirected(Others(g, more, x), x, z)
  }

  lemma SplitHas(g: Net, x: nat, z: nat, a: Arc)
    requires Unused(g, z)
    ensures a.from != z && a.to != z ==> (a in SplitArcs(g, x, z) <==> a in g.arcs && (a.to == x ==> a.from == g.pre))
    ensures a.from != z && a.to == z ==> (a in SplitArcs(g, x, z) <==> a.(to := x) in g.arcs && a.from != g.pre)
    ensures x != z && a.from == z && a.to != z ==> (a in SplitArcs(g, x, z) <==> a.(from := x) in g.arcs && a.to != x)
    ensures x != z && a.from == z && a.to == z ==> (a in SplitArcs(g, x, z) <==> a.(from := x, to := x) in g.arcs)
  {
    var more := g.arcs + Resourced(g.arcs, x, z);
    ResourcedHas(g.arcs, x, z, a);
    ResourcedHas(g.arcs, x, z, a.(to := x));
    RedirectedHas(Others(g, more, x), x, z, a);
  }

  /** Splitting keeps the language. */
  lemma SplitSame(g: Net, h: Net, x: nat, z: nat)
    requires SameEnds(g, h) && Shaped(g) && Unused(g, z) && Inner(g, x) && x != z && h.arcs == SplitArcs(g, x, z)
    ensures SameLanguage(g, h)
  {
    forall s: Subject
      ensures Accepts(g, s) <==> Accepts(h, s)
    {
      SplitForth(g, h, s, x, z);
      SplitBack(g, h, s, x, z);
    }
  }

  lemma SplitForth(g: Net, h: Net, s: Subject, x: nat, z: nat)
    requires SameEnds(g, h) && Shaped(g) && Unused(g, z) && Inner(g, x) && x != z && h.arcs == SplitArcs(g, x, z)
    ensures Accepts(g, s) ==> Accepts(h, s)
  {
    var inv := (y: nat, p: nat) => Reached(h, s, Start(h), y, p) || (y == x && Reached(h, s, Start(h), z, p));
    ReachedHere(h, s, Start(h));
    forall a: Arc, q: nat, p: nat {:trigger Fires(g, s, a, q, p)} |
      a in g.arcs && Reached(g, s, Start(g), a.from, q) && inv(a.from, q) && Fires(g, s, a, q, p)
      ensures inv(a.to, p)
    {
      var from := if Reached(h, s, Start(h), a.from, q) then a.from else z;
      var to := if a.to == x && a.from != g.pre then z else a.to;
      assert ArcShaped(g, a);
      SplitHas(g, x, z, a.(from := from, to := to));
      assert a.(from := from, to := to).(from := a.from, to := a.to) == a;
      assert a.(from := from, to := to) in h.arcs;
      ReachedStep(h, s, Start(h), a.(from := from, to := to), q, p);
    }
    Carry(g, h, s, inv);
  }

  lemma SplitBack(g: Net, h: Net, s: Subject, x: nat, z: nat)
    requires SameEnds(g, h) && Shaped(g) && Unused(g, z) && Inner(g, x) && x != z && h.arcs == SplitArcs(g, x, z)
    ensures Accepts(h, s) ==> Accepts(g, s)
  {
    var inv := (y: nat, p: nat) => Reached(g, s, Start(g), if y == z then x else y, p);
    ReachedHere(g, s, Start(g));
    forall a: Arc, q: nat, p: nat {:trigger Fires(h, s, a, q, p)} |
      a in h.arcs && Reached(h, s, Start(h), a.from, q) && inv(a.from, q) && Fires(h, s, a, q, p)
      ensures inv(a.to, p)
    {
      SplitHas(g, x, z, a);
      var b := a.(from := if a.from == z then x else a.from, to := if a.to == z then x else a.to);
      assert b in g.arcs;
      ReachedStep(g, s, Start(g), b, q, p);
    }
    Carry(h, g, s, inv);
  }

  /** Loops into the start do not interfere with splitting other states. */
  lemma SplitUnlooped(g: Net, h: Net, x: nat, z: nat)
    requires SameEnds(g, h) && Unused(g, z) && x != g.pre && h.arcs == SplitArcs(g, x, z) && x != z
    requires forall a | a in g.arcs && a.to == g.pre :: a.from == g.pre
    ensures Unloop(h).arcs == SplitArcs(Unloop(g), x, z)
    ensures forall a | a in h.arcs && a.to == h.pre :: a.from == h.pre && a in g.arcs
  {
    forall a
      ensures a in Unloop(h).arcs <==> a in SplitArcs(Unloop(g), x, z)
      ensures a in h.arcs && a.to == h.pre ==> a.from == h.pre && a in g.arcs
    {
      SplitHas(g, x, z, a);
      SplitHas(Unloop(g), x, z, a);
    }
  }

  lemma SplitOptimized(g: Net, h: Net, x: nat, z: nat)
    requires SameEnds(g, h) && Optimized(g) && Unused(g, z) && Inner(g, x) && x != z && h.arcs == SplitArcs(g, x, z)
    ensures Optimized(h)
  {
    forall a | a in h.arcs
      ensures ArcShaped(h, a) && (a.kind == PLAIN || a.kind == LACON)
    {
      SplitHas(g, x, z, a);
      var b := a.(from := if a.from == z then x else a.from, to := if a.to == z then x else a.to);
      assert b in g.arcs && ArcShaped(g, b);
    }
  }

  /** Follows the start, and only the start. */
  ghost predicate Clean(g: Net, x: nat) {
    forall a | a in g.arcs && a.to == x :: a.from == g.pre
  }

  lemma SplitClean(g: Net, h: Net, x: nat, z: nat, y: nat)
    requires SameEnds(g, h) && Unused(g, z) && x != z && x != g.pre && y != z && h.arcs == SplitArcs(g, x, z)
    requires y == x || Clean(g, y)
    ensures Clean(h, y)
  {
    forall a | a in h.arcs && a.to == y
      ensures a.from == h.pre
    {
      SplitHas(g, x, z, a);
    }
  }

  /** What `makesearch` does to one state of its list. */
  method SplitState(n: Nfa, s: nat) returns (ghost z: nat)
    requires n.Valid() && s in n.states && Inner(n.G(), s)
    modifies n
    ensures n.Valid() && z !in old(n.states) && Unused(old(n.G()), z) && s != z
    ensures n.arcs == SplitArcs(old(n.G()), s, z) && n.tmp == old(n.tmp)
    ensures n.states == old(n.states) + [z]
  {
    ghost var g := n.G();
    var s2 := n.NewState();
    z := s2;
    n.CopyOuts(s, s2);
    ghost var more := n.arcs;
    n.Ins(s);
    var chain := n.ins[s];
    for i := 0 to |chain|
      invariant n.Valid() && n.states == old(n.states) + [z] && n.tmp == old(n.tmp)
      invariant n.arcs == more - Others(g, Elements(chain[..i]), s) + Redirected(Others(g, Elements(chain[..i]), s), s, z)
    {
      var a := chain[i];
      assert chain[..i + 1] == chain[..i] + [a];
      assert a in more && a !in chain[..i];
      assert a in n.arcs;
      n.Ends(a);
      if a.from != n.pre {
        n.CpArc(a, a.from, s2);
        n.FreeArc(a);
        MovedOne(g, more, chain[..i], a, s, z);
      } else {
        assert Others(g, Elements(chain[..i + 1]), s) == Others(g, Elements(chain[..i]), s);
      }
    }
    assert chain[..|chain|] == chain;
    assert Others(g, Elements(chain), s) == Others(g, more, s);
  }

  lemma MovedOne(g: Net, more: set<Arc>, done: seq<Arc>, a: Arc, s: nat, z: nat)
    requires a.from != g.pre && a.to == s && s != z && a !in done
    ensures var was := Others(g, Elements(done), s);
      var now := Others(g, Elements(done + [a]), s);
      more - was + Redirected(was, s, z) + {a.(to := z)} - {a} == more - now + Redirected(now, s, z)
  {
    var was := Others(g, Elements(done), s);
    var now := Others(g, Elements(done + [a]), s);
    assert now == was + {a};
    forall b
      ensures b in Redirected(now, s, z) <==> b in Redirected(was, s, z) || b == a.(to := z)
    {
      RedirectedHas(now, s, z, b);
      RedirectedHas(was, s, z, b);
    }
  }

  // ----- the list of states to split

  function Last(list: seq<nat>): int {
    if list == [] then NIL else list[|list| - 1]
  }

  /** The list kept in tmp: each state names the one listed before it, except that the first listed keeps NULL and so
      may be listed once more. */
  ghost predicate Listed(list: seq<nat>, tmp: map<nat, nat>) {
    && (forall i, k | 1 <= i < k < |list| :: list[i] != list[k])
    && (forall x :: x in tmp <==> exists i :: 1 <= i < |list| && list[i] == x)
    && forall i | 1 <= i < |list| :: tmp[list[i]] == list[i - 1]
  }

  lemma ListMore(list: seq<nat>, tmp: map<nat, nat>, s: nat)
    requires Listed(list, tmp) && s !in tmp
    ensures Listed(list + [s], if list == [] then tmp else tmp[s := list[|list| - 1]])
  {
    if list != [] {
      var list', tmp' := list + [s], tmp[s := list[|list| - 1]];
      forall x
        ensures x in tmp' <==> exists i :: 1 <= i < |list'| && list'[i] == x
      {
        if x in tmp {
          var i :| 1 <= i < |list| && list[i] == x;
          assert list'[i] == x;
        }
        assert list'[|list|] == s;
      }
    }
  }

  lemma ListLess(list: seq<nat>, tmp: map<nat, nat>)
    requires Listed(list, tmp) && list != []
    ensures var s := list[|list| - 1]; Listed(list[..|list| - 1], tmp - {s}) && (s in tmp <==> |list| > 1)
    ensures |list| > 1 ==> tmp[list[|list| - 1]] == list[|list| - 2]
  {
    var list', s := list[..|list| - 1], list[|list| - 1];
    forall x
      ensures x in tmp - {s} <==> exists i :: 1 <= i < |list'| && list'[i] == x
    {
      if x in tmp && x != s {
        var i :| 1 <= i < |list| && list[i] == x;
        assert list'[i] == x;
      }
      if i :| 1 <= i < |list'| && list'[i] == x {
        assert list[i] == x;
      }
    }
  }

  /** Does anything but the start lead to s? */
  method EnteredElsewhere(n: Nfa, s: nat) returns (yes: bool)
    requires n.Valid() && s in n.states
    ensures yes <==> !Clean(n.G(), s)
  {
    n.Ins(s);
    var chain := n.ins[s];
    for i := 0 to |chain|
      invariant forall k | 0 <= k < i :: chain[k].from == n.pre
    {
      assert chain[i] in n.arcs;
      if chain[i].from != n.pre {
        return true;
      }
    }
    forall a | a in n.arcs && a.to == s
      ensures a.from == n.pre
    {
      assert a in chain;
    }
    yes := false;
  }

  /** Every state after the start is on the list or follows nothing else. */
  ghost predicate Covered(g: Net, list: seq<nat>) {
    forall a | a in g.arcs && a.from == g.pre :: a.to in list || Clean(g, a.to)
  }

  /** Put s at the head of the list. */
  method Enlist(n: Nfa, s: nat, slist: int, ghost list: seq<nat>)
    requires n.Valid() && Listed(list, n.tmp) && slist == Last(list) && s in n.states && s !in n.tmp
    modifies n`tmp
    ensures n.Valid() && Listed(list + [s], n.tmp)
  {
    ListMore(list, n.tmp, s);
    if slist != NIL {
      n.Unseal();
      n.tmp := n.tmp[s := slist];
      n.Seal();
    }
  }

  /** Links the states to split into a list, each by its `tmp`. */
  method ListStates(n: Nfa) returns (slist: int, ghost list: seq<nat>)
    requires n.Valid() && n.tmp == map[] && Optimized(Unloop(n.G()))
    requires forall a | a in n.arcs && a.to == n.pre :: a.from == n.pre
    modifies n`tmp
    ensures n.Valid() && Listed(list, n.tmp) && Covered(n.G(), list)
    ensures slist == Last(list)
    ensures forall x | x in list :: x in n.states && Inner(n.G(), x)
  {
    n.Outs(n.pre);
    var chain := n.outs[n.pre];
    slist, list := NIL, [];
    for i := 0 to |chain|
      invariant n.Valid() && Listed(list, n.tmp) && slist == Last(list)
      invariant forall x | x in list :: x in n.states && Inner(n.G(), x)
      invariant forall k | 0 <= k < i :: chain[k].to in list || Clean(n.G(), chain[k].to)
    {
      var a := chain[i];
      assert a in n.arcs;
      n.Ends(a);
      var s := a.to;
      var yes := EnteredElsewhere(n, s);
      if yes && s !in n.tmp {
        InnerAfter(n.G(), a);
        Enlist(n, s, slist, list);
        slist, list := s, list + [s];
      } else if yes {
        assert s in list;
      }
    }
    forall a | a in n.arcs && a.from == n.pre
      ensures a.to in list || Clean(n.G(), a.to)
    {
      assert a in chain;
    }
  }

  lemma InnerAfter(g: Net, a: Arc)
    requires Optimized(Unloop(g)) && a in g.arcs && a.from == g.pre && !Clean(g, a.to)
    requires forall b | b in g.arcs && b.to == g.pre :: b.from == g.pre
    ensures Inner(g, a.to)
  {
    if a.to != g.pre {
      assert ArcShaped(Unloop(g), a);
    }
  }

  // ----- the whole of makesearch

  /** Nothing but the start's own loops lead to the start. */
  ghost predicate OnlyLoops(g: Net) {
    forall a | a in g.arcs && a.to == g.pre :: a.from == g.pre && a.kind == PLAIN
  }

  /** Colors are those in use, the false ones included; lookahead constraints are numbered from 1. */
  ghost predicate Colored(g: Net, colors: seq<nat>, lim: nat) {
    forall a | a in g.arcs ::
      && (a.kind == PLAIN ==> a.co in colors || a.co in g.bos || a.co in g.eos)
      && (a.kind == LACON ==> 1 <= a.co < lim)
  }

  /** The start loops on every color that can come before a match. */
  ghost predicate Looped(g: Net, colors: seq<nat>) {
    forall c | c in colors || c in g.bos :: Arc(PLAIN, c, g.pre, g.pre) in g.arcs
  }

  ghost predicate AnchoredNet(g: Net) {
    forall a | a in g.arcs :: a.to != g.pre && (a.from == g.pre ==> a.co in g.bos)
  }

  /** h searches for what g accepts. */
  ghost predicate IsSearch(g: Net, h: Net, colors: seq<nat>) {
    && SameEnds(g, h) && Optimized(Unloop(h)) && SameLanguage(g, Unloop(h)) && OnlyLoops(h)
    && (forall a | a in h.arcs && a.from == h.pre :: Clean(h, a.to))
    && (Looped(h, colors) || AnchoredNet(h))
  }

  /** Are there ways on from the start other than at the beginning of the string? */
  method Unanchored(n: Nfa) returns (yes: bool)
    requires n.Valid() && |n.bos| == 2
    ensures !yes ==> forall a | a in n.arcs && a.from == n.pre :: a.co in n.bos
  {
    n.Outs(n.pre);
    var chain := n.outs[n.pre];
    for i := 0 to |chain|
      invariant forall k | 0 <= k < i :: chain[k].co in n.bos
    {
      if chain[i].co != n.bos[0] && chain[i].co != n.bos[1] {
        return true;
      }
    }
    forall a | a in n.arcs && a.from == n.pre
      ensures a.co in n.bos
    {
      assert a in chain;
    }
    yes := false;
  }

  /** The start gains a loop for every color and for the string and line begins. */
  method AddLoops(n: Nfa, colors: seq<nat>, ghost lim: nat)
    requires n.Valid() && Optimized(n.G()) && Colored(n.G(), colors, lim)
    modifies n`outs, n`ins, n`arcs, n`colors
    ensures n.Valid() && OnlyLoops(n.G()) && Looped(n.G(), colors) && Colored(n.G(), colors, lim)
    ensures Unloop(n.G()).arcs == old(n.arcs)
  {
    assert forall a | a in n.arcs :: ArcShaped(n.G(), a);
    var all := colors + [n.bos[0], n.bos[1]];
    for i := 0 to |all|
      invariant n.Valid() && OnlyLoops(n.G()) && Colored(n.G(), colors, lim)
      invariant forall k | 0 <= k < i :: Arc(PLAIN, all[k], n.pre, n.pre) in n.arcs
      invariant Unloop(n.G()).arcs == old(n.arcs)
    {
      n.NewArc(PLAIN, all[i], n.pre, n.pre);
    }
    forall c | c in colors || c in n.bos
      ensures Arc(PLAIN, c, n.pre, n.pre) in n.arcs
    {
      assert c in all;
      var k :| 0 <= k < |all| && all[k] == c;
    }
  }

  lemma SplitColored(g: Net, h: Net, x: nat, z: nat, colors: seq<nat>, lim: nat)
    requires SameEnds(g, h) && Colored(g, colors, lim) && Unused(g, z) && x != z && h.arcs == SplitArcs(g, x, z)
    ensures Colored(h, colors, lim)
  {
    forall a | a in h.arcs
      ensures exists b :: b in g.arcs && b.kind == a.kind && b.co == a.co
    {
      SplitHas(g, x, z, a);
      var b := a.(from := if a.from == z then x else a.from, to := if a.to == z then x else a.to);
      assert b in g.arcs;
    }
  }

  /** What splitting is to establish and keep; the first k listed states are still to be split. */
  ghost predicate Splitting(g: Net, h: Net, list: seq<nat>, colors: seq<nat>, lim: nat) {
    && SameEnds(g, h) && Optimized(Unloop(h)) && SameLanguage(g, Unloop(h)) && OnlyLoops(h) && Colored(h, colors, lim)
    && Covered(h, list)
    && (Looped(h, colors) || AnchoredNet(h))
  }

  lemma SplitNext(g: Net, h: Net, h': Net, list: seq<nat>, colors: seq<nat>, lim: nat, z: nat)
    requires list != [] && Splitting(g, h, list, colors, lim)
    requires var s := list[|list| - 1];
      Inner(h, s) && Unused(h, z) && s != z && SameEnds(h, h') && h'.arcs == SplitArcs(h, s, z)
    ensures Splitting(g, h', list[..|list| - 1], colors, lim)
  {
    var s := list[|list| - 1];
    SplitUnlooped(h, h', s, z);
    SplitSame(Unloop(h), Unloop(h'), s, z);
    SplitOptimized(Unloop(h), Unloop(h'), s, z);
    SplitColored(h, h', s, z, colors, lim);
    forall a | a in h'.arcs && a.from == h.pre
      ensures a in h.arcs && (a.to in list[..|list| - 1] || Clean(h', a.to))
    {
      SplitHas(h, s, z, a);
      if a.to !in list[..|list| - 1] {
        assert list == list[..|list| - 1] + [s];
        SplitClean(h, h', s, z, a.to);
      }
    }
    forall c | c in colors || c in h.bos
      ensures Looped(h, colors) ==> Arc(PLAIN, c, h.pre, h.pre) in h'.arcs
    {
      SplitHas(h, s, z, Arc(PLAIN, c, h.pre, h.pre));
    }
    assert AnchoredNet(h) ==> AnchoredNet(h');
  }

  /** Split one state and unlink it from the list. */
  method SplitOne(n: Nfa, s: nat, ghost list: seq<nat>, ghost g: Net, ghost colors: seq<nat>, ghost lim: nat) returns (next: int)
    requires n.Valid() && Listed(list, n.tmp) && list != [] && s == Last(list) && Splitting(g, n.G(), list, colors, lim)
    requires s in n.states && Inner(n.G(), s)
    modifies n
    ensures n.Valid() && Listed(list[..|list| - 1], n.tmp) && next == Last(list[..|list| - 1])
    ensures Splitting(g, n.G(), list[..|list| - 1], colors, lim)
    ensures forall x | x in old(n.states) :: x in n.states
  {
    ghost var h := n.G();
    ghost var z := SplitState(n, s);
    SplitNext(g, h, n.G(), list, colors, lim, z);
    ListLess(list, n.tmp);
    next := if s in n.tmp then n.tmp[s] else NIL;
    n.Unseal();
    n.tmp := n.tmp - {s};
    n.Seal();
  }

  /** Do the splits. */
  method SplitAll(n: Nfa, slist: int, ghost list: seq<nat>, ghost g: Net, ghost colors: seq<nat>, ghost lim: nat)
    requires n.Valid() && Listed(list, n.tmp) && slist == Last(list) && Splitting(g, n.G(), list, colors, lim)
    requires forall x | x in list :: x in n.states && Inner(n.G(), x)
    modifies n
    ensures n.Valid() && n.tmp == map[] && Splitting(g, n.G(), [], colors, lim)
  {
    var s := slist;
    ghost var rest := list;
    while s != NIL
      invariant n.Valid() && Listed(rest, n.tmp) && s == Last(rest) && Splitting(g, n.G(), rest, colors, lim)
      invariant forall x | x in rest :: x in n.states && Inner(n.G(), x)
      decreases |rest|
    {
      assert s in rest;
      s := SplitOne(n, s, rest, g, colors, lim);
      rest := rest[..|rest| - 1];
    }
    assert forall x :: x !in n.tmp;
  }

  /** `makesearch`: `colors` are the colors in use. */
  method MakeSearch(n: Nfa, colors: seq<nat>, ghost lim: nat)
    requires n.Valid() && n.tmp == map[] && Optimized(n.G()) && Colored(n.G(), colors, lim)
    modifies n
    ensures n.Valid() && n.tmp == map[]
    ensures IsSearch(old(n.G()), n.G(), colors) && Colored(n.G(), colors, lim)
  {
    ghost var g := n.G();
    assert forall a | a in g.arcs :: ArcShaped(g, a);
    assert Unloop(g).arcs == g.arcs;
    var yes := Unanchored(n);
    if yes {
      AddLoops(n, colors, lim);
    }
    var slist, list := ListStates(n);
    SplitAll(n, slist, list, g, colors, lim);
  }
}
