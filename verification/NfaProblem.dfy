/** From construction to execution: an optimized NFA and the search NFA made from it, both compacted, are what `find`
    relies on. */
module NfaProblem {
  import opened Cnfas
  import opened Nets
  import opened NetRewrites
  import opened Nfas
  import opened NfaCompact
  import opened NfaMatch
  import opened NfaOptimize
  import opened NfaSearch
  import opened SearchNfa

  /** The colors of the map: real ones, apart from the false ones. */
  ghost predicate GoodColors(g: Net, ncolors: nat, colors: seq<nat>) {
    && |g.bos| == 2 && |g.eos| == 2
    && (forall c | c in colors :: c < ncolors && c !in g.bos && c !in g.eos)
    && g.bos[0] < ncolors && g.bos[1] < ncolors && g.eos[0] < ncolors && g.eos[1] < ncolors
  }

  lemma OptimizedCompactable(g: Net, ncolors: nat, colors: seq<nat>, lim: nat)
    requires Optimized(Unloop(g)) && OnlyLoops(g) && Colored(g, colors, lim) && GoodColors(g, ncolors, colors)
    ensures Compactable(g, ncolors, lim)
  {
    forall a | a in g.arcs
      ensures ArcCompactable(g, ncolors, lim, a)
    {
      assert a.to != g.pre ==> a in Unloop(g).arcs && ArcShaped(Unloop(g), a);
    }
  }

  /** A compacted arc is an arc. */
  lemma ArcBehind(g: Net, states: seq<nat>, no: map<nat, nat>, c: Cnfa, i: nat, k: nat) returns (a: Arc)
    requires IsCompact(g, states, no, c) && i < |c.states| && k < |c.states[i].outs|
    ensures a in g.arcs && a.from == states[i] && a.to in no && c.states[i].outs[k] == Compacted(a, c.ncolors, no)
  {
    assert StateCompact(g.arcs, states[i], c.ncolors, no, c.states[i].outs);
    assert Stands(g.arcs, states[i], c.ncolors, no, c.states[i].outs[k]);
    a :| a in g.arcs && a.from == states[i] && a.to in no && c.states[i].outs[k] == Compacted(a, c.ncolors, no);
  }

  lemma CompactWf(g: Net, states: seq<nat>, no: map<nat, nat>, c: Cnfa, lim: nat)
    requires Compactable(g, c.ncolors, lim) && IsCompact(g, states, no, c)
    requires c.PreUnentered() || c.LoopsOrPost()
    ensures c.Wf(lim)
  {
    forall i, k | 0 <= i < |c.states| && 0 <= k < |c.states[i].outs|
      ensures c.WfArc(lim, i, c.states[i].outs[k])
    {
      var a := ArcBehind(g, states, no, c, i, k);
      assert ArcCompactable(g, c.ncolors, lim, a);
      assert a.kind == LACON ==> HasLacons(g.arcs, states);
    }
  }

  lemma CompactUnentered(g: Net, states: seq<nat>, no: map<nat, nat>, c: Cnfa)
    requires IsCompact(g, states, no, c) && forall a | a in g.arcs :: a.to != g.pre
    ensures c.PreUnentered()
  {
    forall i, k | 0 <= i < |c.states| && 0 <= k < |c.states[i].outs|
      ensures c.states[i].outs[k].to != c.pre
    {
      var a := ArcBehind(g, states, no, c, i, k);
    }
  }

  lemma CompactLoops(g: Net, states: seq<nat>, no: map<nat, nat>, c: Cnfa, co: nat)
    requires IsCompact(g, states, no, c) && Arc(PLAIN, co, g.pre, g.pre) in g.arcs
    ensures c.PreLoop(co)
  {
    var a := Arc(PLAIN, co, g.pre, g.pre);
    ArcStands(g, states, no, c, a);
    var outs := c.states[c.pre].outs;
    var k :| 0 <= k < |outs| && outs[k] == Compacted(a, c.ncolors, no);
  }

  lemma CompactLoopsOrPost(g: Net, states: seq<nat>, no: map<nat, nat>, c: Cnfa, colors: seq<nat>, lim: nat)
    requires IsCompact(g, states, no, c) && Optimized(Unloop(g)) && OnlyLoops(g) && Colored(g, colors, lim)
    requires GoodColors(g, c.ncolors, colors) && Looped(g, colors)
    ensures c.LoopsOrPost()
  {
    forall i, k | 0 <= i < |c.states| && 0 <= k < |c.states[i].outs| && c.states[i].outs[k].co <= c.ncolors
      ensures c.PreLoop(c.states[i].outs[k].co) || c.states[i].outs[k].to == c.post
    {
      var a := ArcBehind(g, states, no, c, i, k);
      if a.co in colors || a.co in g.bos {
        CompactLoops(g, states, no, c, a.co);
      } else if a.kind == PLAIN && a.to == g.pre {
        assert a.co in g.eos;
      } else {
        assert a in Unloop(g).arcs && ArcShaped(Unloop(g), a);
      }
    }
  }

  lemma CompactSplit(g: Net, states: seq<nat>, no: map<nat, nat>, c: Cnfa, lim: nat)
    requires IsCompact(g, states, no, c) && OnlyLoops(g) && Compactable(g, c.ncolors, lim)
    requires forall a | a in g.arcs && a.from == g.pre :: Clean(g, a.to)
    ensures Split(c)
  {
    forall i, k | 0 <= i < |c.states| && 0 <= k < |c.states[i].outs| && i != c.pre
      ensures c.states[i].outs[k].to != c.pre
      ensures c.states[i].outs[k].to < |c.states| ==> !c.states[c.states[i].outs[k].to].noprogress
    {
      var a := ArcBehind(g, states, no, c, i, k);
      assert a.from != g.pre;
    }
  }

  /** Leaving out the loops before or after compacting is the same. */
  lemma CompactUnlooped(g: Net, states: seq<nat>, no: map<nat, nat>, c: Cnfa)
    requires IsCompact(g, states, no, c) && OnlyLoops(g)
    ensures IsCompact(Unloop(g), states, no, Unlooped(c))
  {
    var h, u := Unloop(g), Unlooped(c);
    forall i | 0 <= i < |states|
      ensures StateCompact(h.arcs, states[i], u.ncolors, no, u.states[i].outs)
    {
      var arcs := c.states[i].outs;
      assert StateCompact(g.arcs, states[i], c.ncolors, no, arcs);
      forall ca
        ensures ca in u.states[i].outs <==> Stands(h.arcs, states[i], u.ncolors, no, ca)
      {
        WithoutLoopsKeeps(arcs, c.pre, ca);
        if ca in arcs && ca.to != c.pre {
          var a :| a in g.arcs && a.from == states[i] && a.to in no && ca == Compacted(a, c.ncolors, no);
          assert a in h.arcs;
        }
        if Stands(h.arcs, states[i], u.ncolors, no, ca) {
          var a :| a in h.arcs && a.from == states[i] && a.to in no && ca == Compacted(a, c.ncolors, no);
          assert Stands(g.arcs, states[i], c.ncolors, no, ca);
        }
      }
    }
    forall i | 0 <= i < |states|
      ensures u.states[i].noprogress <==> states[i] == g.pre || Joined(h.arcs, g.pre, states[i])
    {
      assert u.states[i].noprogress == c.states[i].noprogress;
      if Joined(g.arcs, g.pre, states[i]) && states[i] != g.pre {
        var a :| a in g.arcs && a.from == g.pre && a.to == states[i];
        assert a in h.arcs;
      }
      if Joined(h.arcs, g.pre, states[i]) {
        var a :| a in h.arcs && a.from == g.pre && a.to == states[i];
        assert a in g.arcs;
      }
    }
    if HasLacons(g.arcs, states) {
      var a :| a in g.arcs && a.from in states && a.kind == LACON;
      assert a in h.arcs;
    }
  }

  lemma CompactAnchored(j: Job, g: Net, states: seq<nat>, no: map<nat, nat>, colors: seq<nat>)
    requires IsCompact(g, states, no, j.n) && AnchoredNet(g) && GoodColors(g, j.n.ncolors, colors)
    requires forall i | 0 <= i < |j.v.text| :: j.v.cm(j.v.text[i]) in colors
    requires forall a | a in g.arcs && a.from == g.pre :: a.kind == PLAIN
    ensures Anchored(j)
  {
    CompactUnentered(g, states, no, j.n);
    forall k, i | 0 <= k < |j.n.states[j.n.pre].outs| && 0 <= i < |j.v.text|
      ensures j.n.states[j.n.pre].outs[k].co != j.v.cm(j.v.text[i])
    {
      var a := ArcBehind(g, states, no, j.n, j.n.pre, k);
    }
  }

  /** An optimized NFA and the search NFA made from it, compacted, form a search problem. */
  lemma SearchProblem(js: Job, jn: Job, g: Net, gs: seq<nat>, gno: map<nat, nat>, h: Net, hs: seq<nat>, hno: map<nat, nat>,
                      colors: seq<nat>, lim: nat)
    requires Optimized(g) && IsSearch(g, h, colors) && Colored(g, colors, lim) && Colored(h, colors, lim)
    requires GoodColors(g, jn.n.ncolors, colors) && js.n.ncolors == jn.n.ncolors && js.v == jn.v && js.la == jn.la
    requires IsCompact(g, gs, gno, jn.n) && IsCompact(h, hs, hno, js.n)
    requires forall i | 0 <= i < |jn.v.text| :: jn.v.cm(jn.v.text[i]) in colors
    ensures SearchFor(js, jn, lim)
  {
    assert forall a | a in g.arcs :: ArcShaped(g, a);
    assert Unloop(g).arcs == g.arcs;
    OptimizedCompactable(g, jn.n.ncolors, colors, lim);
    OptimizedCompactable(h, js.n.ncolors, colors, lim);
    CompactUnentered(g, gs, gno, jn.n);
    CompactWf(g, gs, gno, jn.n, lim);
    SearchWf(js, h, hs, hno, colors, lim);
    CompactSplit(h, hs, hno, js.n, lim);
    SearchStart(js, h, hs, hno, colors);
    forall b: nat, e: nat
      ensures U(js).Matches(b, e) <==> jn.Matches(b, e)
    {
      if b <= e <= |js.v.text| {
        SearchSame(js, jn, g, gs, gno, h, hs, hno, colors, lim, b, e);
      }
    }
  }

  lemma SearchWf(js: Job, h: Net, hs: seq<nat>, hno: map<nat, nat>, colors: seq<nat>, lim: nat)
    requires Optimized(Unloop(h)) && OnlyLoops(h) && (Looped(h, colors) || AnchoredNet(h)) && Colored(h, colors, lim)
    requires GoodColors(h, js.n.ncolors, colors) && IsCompact(h, hs, hno, js.n)
    ensures js.n.Wf(lim)
  {
    OptimizedCompactable(h, js.n.ncolors, colors, lim);
    if Looped(h, colors) {
      CompactLoopsOrPost(h, hs, hno, js.n, colors, lim);
    } else {
      CompactUnentered(h, hs, hno, js.n);
    }
    CompactWf(h, hs, hno, js.n, lim);
  }

  lemma SearchStart(js: Job, h: Net, hs: seq<nat>, hno: map<nat, nat>, colors: seq<nat>)
    requires Optimized(Unloop(h)) && OnlyLoops(h) && (Looped(h, colors) || AnchoredNet(h))
    requires GoodColors(h, js.n.ncolors, colors) && IsCompact(h, hs, hno, js.n)
    requires forall i | 0 <= i < |js.v.text| :: js.v.cm(js.v.text[i]) in colors
    ensures Loops(js) || Anchored(js)
  {
    if Looped(h, colors) {
      CompactLoops(h, hs, hno, js.n, js.PrevColor(0));
      forall i | 0 <= i < |js.v.text|
        ensures js.n.PreLoop(js.v.cm(js.v.text[i]))
      {
        CompactLoops(h, hs, hno, js.n, js.v.cm(js.v.text[i]));
      }
    } else {
      forall a | a in h.arcs && a.from == h.pre
        ensures a.kind == PLAIN
      {
        assert a in Unloop(h).arcs && ArcShaped(Unloop(h), a);
      }
      CompactAnchored(js, h, hs, hno, colors);
    }
  }

  lemma UnloopedMatches(js: Job, h: Net, hs: seq<nat>, hno: map<nat, nat>, colors: seq<nat>, lim: nat, b: nat, e: nat)
    requires js.Wf(lim) && Optimized(Unloop(h)) && OnlyLoops(h) && Colored(h, colors, lim)
    requires GoodColors(h, js.n.ncolors, colors) && IsCompact(h, hs, hno, js.n) && b <= e <= |js.v.text|
    ensures U(js).Matches(b, e) <==> Accepts(Unloop(h), SubjectOf(U(js), b, e))
  {
    var u := Unloop(h);
    CompactUnlooped(h, hs, hno, js.n);
    assert Unloop(u).arcs == u.arcs;
    OptimizedCompactable(u, js.n.ncolors, colors, lim);
    CompactUnentered(u, hs, hno, U(js).n);
    CompactWf(u, hs, hno, U(js).n, lim);
    CompactMatches(U(js), u, hs, hno, lim, b, e);
  }

  lemma SearchSame(js: Job, jn: Job, g: Net, gs: seq<nat>, gno: map<nat, nat>, h: Net, hs: seq<nat>, hno: map<nat, nat>,
                   colors: seq<nat>, lim: nat, b: nat, e: nat)
    requires Compactable(g, jn.n.ncolors, lim) && IsCompact(g, gs, gno, jn.n) && jn.Wf(lim) && js.Wf(lim)
    requires IsSearch(g, h, colors) && Colored(h, colors, lim) && GoodColors(h, js.n.ncolors, colors)
    requires js.n.ncolors == jn.n.ncolors && js.v == jn.v && js.la == jn.la && IsCompact(h, hs, hno, js.n)
    requires b <= e <= |js.v.text|
    ensures U(js).Matches(b, e) <==> jn.Matches(b, e)
  {
    UnloopedMatches(js, h, hs, hno, colors, lim, b, e);
    CompactMatches(jn, g, gs, gno, lim, b, e);
    assert SubjectOf(U(js), b, e).x == SubjectOf(jn, b, e).x;
    SameSubject(U(js), jn, Unloop(h), b, e);
  }

  /** Subjects that read the same are accepted alike. */
  lemma SameSubject(j: Job, k: Job, g: Net, b: nat, e: nat)
    requires |j.n.bos| == 2 && |j.n.eos| == 2 && |k.n.bos| == 2 && |k.n.eos| == 2 && b <= e <= |j.v.text| && j.v == k.v
    requires j.la == k.la && SubjectOf(j, b, e).x == SubjectOf(k, b, e).x
    ensures Accepts(g, SubjectOf(j, b, e)) <==> Accepts(g, SubjectOf(k, b, e))
  {
    forall p: nat
      ensures TextPos(j, b, p) == TextPos(k, b, p)
    {}
    SubjectLike(g, SubjectOf(j, b, e), SubjectOf(k, b, e));
    SubjectLike(g, SubjectOf(k, b, e), SubjectOf(j, b, e));
  }

  lemma SubjectLike(g: Net, s: Subject, t: Subject)
    requires s.x == t.x && forall k: nat, p: nat :: s.la(k, p) <==> t.la(k, p)
    ensures Accepts(g, s) ==> Accepts(g, t)
  {
    var inv := (x: nat, p: nat) => Reached(g, t, Start(g), x, p);
    ReachedHere(g, t, Start(g));
    forall a: Arc, q: nat, p: nat {:trigger Fires(g, s, a, q, p)} |
      a in g.arcs && Reached(g, s, Start(g), a.from, q) && inv(a.from, q) && Fires(g, s, a, q, p)
      ensures inv(a.to, p)
    {
      assert Fires(g, t, a, q, p);
      ReachedStep(g, t, Start(g), a, q, p);
    }
    ReachedInduction(g, s, Start(g), inv);
  }

  /** What two compacted NFAs do for any text: the main one matches what the NFA accepts, the other one searches for
      that. */
  ghost predicate SearchPair(g: Net, main: Cnfa, search: Cnfa, colors: seq<nat>, lim: nat) {
    forall js: Job, jn: Job | Alike(js, jn, main, search, colors) :: SearchFor(js, jn, lim) && MatchesAs(jn, g)
  }

  /** Jobs for the two NFAs on the same text, whose characters have the colors there are. */
  ghost predicate Alike(js: Job, jn: Job, main: Cnfa, search: Cnfa, colors: seq<nat>) {
    && js.n == search && jn.n == main && js.v == jn.v && js.la == jn.la
    && forall i | 0 <= i < |jn.v.text| :: jn.v.cm(jn.v.text[i]) in colors
  }

  /** The job matches what the NFA accepts. */
  ghost predicate MatchesAs(j: Job, g: Net) {
    && |g.bos| == 2 && |g.eos| == 2 && j.n.bos == g.bos && j.n.eos == g.eos
    && forall b: nat, e: nat | b <= e <= |j.v.text| :: j.Matches(b, e) <==> Accepts(g, SubjectOf(j, b, e))
  }

  lemma OptimizedPair(g0: Net, g: Net, gs: seq<nat>, gno: map<nat, nat>, h: Net, hs: seq<nat>, hno: map<nat, nat>, main: Cnfa,
                        search: Cnfa, colors: seq<nat>, lim: nat)
    requires SameLanguage(g0, g) && SameEnds(g0, g) && Optimized(g) && IsSearch(g, h, colors) && Colored(g, colors, lim) && Colored(h, colors, lim)
    requires GoodColors(g, main.ncolors, colors) && search.ncolors == main.ncolors
    requires IsCompact(g, gs, gno, main) && IsCompact(h, hs, hno, search)
    ensures SearchPair(g0, main, search, colors, lim)
  {
    forall js: Job, jn: Job | Alike(js, jn, main, search, colors)
      ensures SearchFor(js, jn, lim) && MatchesAs(jn, g0)
    {
      SearchProblem(js, jn, g, gs, gno, h, hs, hno, colors, lim);
      assert Unloop(g).arcs == g.arcs;
      OptimizedCompactable(g, main.ncolors, colors, lim);
      forall b: nat, e: nat | b <= e <= |jn.v.text|
        ensures jn.Matches(b, e) <==> Accepts(g0, SubjectOf(jn, b, e))
      {
        CompactMatches(jn, g, gs, gno, lim, b, e);
      }
    }
  }

  /** From an NFA as built to what the matcher runs: optimized and compacted, then made into the search NFA and compacted
      again. If the optimizer comes to an end, the two form a search problem for the matches of the NFA as built; if not,
      it has worked on an arc as often as the limit allows. */
  method Prepare(n: Nfa, ncolors: nat, colors: seq<nat>, limit: nat, ghost lim: nat)
    returns (settled: bool, main: Cnfa, search: Cnfa, ghost t: Task, ghost run: seq<Net>)
    requires n.Valid() && n.tmp == map[] && Shaped(n.G()) && CaretsKept(n.G()) && DollarsKept(n.G())
    requires Colored(n.G(), colors, lim) && GoodColors(n.G(), ncolors, colors)
    modifies n
    ensures settled ==> SearchPair(old(n.G()), main, search, colors, lim)
    ensures !settled ==> WentOn(t, run, limit)
    ensures Optimized(old(n.G())) && limit > 0 ==> settled
  {
    main := Cnfa([], 0, false, 0, 0, [], []);
    search := main;
    settled, t, run := Optimize(n, limit, colors, lim);
    if !settled {
      return;
    }
    ghost var g, gs := n.G(), n.states;
    var gno, hno;
    main, gno := Compact(n, ncolors);
    MakeSearch(n, colors, lim);
    search, hno := Compact(n, ncolors);
    OptimizedPair(old(n.G()), g, gs, gno, n.G(), n.states, hno, main, search, colors, lim);
  }
}
