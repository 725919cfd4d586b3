/** Compacting an NFA (regc_nfa.c), and why the result matches what the NFA accepts. */
module NfaCompact {
  import opened Cnfas
  import opened Nets
  import opened Nfas

  /** What compaction relies on, for lookahead constraints numbered below lim: only colors and lookahead constraints
      are left, the latter inside; nothing leaves the end, and none of the start's arcs enters it. */
  ghost predicate Compactable(g: Net, ncolors: nat, lim: nat) {
    && g.pre != g.post && |g.bos| == 2 && |g.eos| == 2
    && g.bos[0] < ncolors && g.bos[1] < ncolors && g.eos[0] < ncolors && g.eos[1] < ncolors
    && forall a | a in g.arcs :: ArcCompactable(g, ncolors, lim, a)
  }

  ghost predicate ArcCompactable(g: Net, ncolors: nat, lim: nat, a: Arc) {
    && a.from != g.post && (a.from == g.pre ==> a.to != g.post)
    && ((a.kind == PLAIN && a.co < ncolors)
        || (a.kind == LACON && 1 <= a.co < lim && a.from != g.pre && a.to != g.pre && a.to != g.post))
  }

  /** Each state has the number of its place in the chain. */
  ghost predicate Numbers(states: seq<nat>, no: map<nat, nat>) {
    && (forall x :: x in no <==> x in states)
    && forall x | x in no :: no[x] < |states| && states[no[x]] == x
  }

  /** Renumber the states. */
  method Renumber(n: Nfa) returns (no: map<nat, nat>)
    requires n.Valid()
    ensures Numbers(n.states, no)
  {
    n.States();
    no := map[];
    for i := 0 to |n.states|
      invariant forall x :: x in no <==> x in n.states[..i]
      invariant forall x | x in no :: no[x] < i && n.states[no[x]] == x
    {
      assert n.states[..i + 1] == n.states[..i] + [n.states[i]];
      no := no[n.states[i] := i];
    }
    assert n.states[..|n.states|] == n.states;
  }

  function Compacted(a: Arc, ncolors: nat, no: map<nat, nat>): Carc
    requires a.to in no
  {
    Carc(if a.kind == LACON then ncolors + a.co else a.co, no[a.to])
  }

  /** ca stands for an arc out of x. */
  ghost predicate Stands(arcs: set<Arc>, x: nat, ncolors: nat, no: map<nat, nat>, ca: Carc) {
    exists a :: a in arcs && a.from == x && a.to in no && ca == Compacted(a, ncolors, no)
  }

  ghost predicate StateCompact(arcs: set<Arc>, x: nat, ncolors: nat, no: map<nat, nat>, cas: seq<Carc>) {
    forall ca :: ca in cas <==> Stands(arcs, x, ncolors, no, ca)
  }

  ghost predicate Joined(arcs: set<Arc>, x: nat, y: nat) {
    exists a :: a in arcs && a.from == x && a.to == y
  }

  ghost predicate HasLacons(arcs: set<Arc>, states: seq<nat>) {
    exists a :: a in arcs && a.from in states && a.kind == LACON
  }

  /** c lists the arcs of g, state by state, and marks the states without progress. */
  ghost predicate IsCompact(g: Net, states: seq<nat>, no: map<nat, nat>, c: Cnfa) {
    && Numbers(states, no) && Distinct(states) && g.pre in no && g.post in no
    && (forall a | a in g.arcs :: a.from in no && a.to in no)
    && |c.states| == |states| && c.pre == no[g.pre] && c.post == no[g.post] && c.bos == g.bos && c.eos == g.eos
    && (forall i | 0 <= i < |states| :: StateCompact(g.arcs, states[i], c.ncolors, no, c.states[i].outs))
    && (forall i | 0 <= i < |states| :: c.states[i].noprogress <==> states[i] == g.pre || Joined(g.arcs, g.pre, states[i]))
    && (c.haslacons <==> HasLacons(g.arcs, states))
  }

  /** One state's arcs. */
  method CompactState(n: Nfa, s: nat, ncolors: nat, no: map<nat, nat>, haslacons0: bool) returns (cas: seq<Carc>, haslacons: bool)
    requires n.Valid() && s in n.states && Numbers(n.states, no)
    ensures StateCompact(n.arcs, s, ncolors, no, cas)
    ensures haslacons <==> haslacons0 || HasLacons(n.arcs, [s])
  {
    n.Outs(s);
    n.States();
    cas, haslacons := [], haslacons0;
    var chain := n.outs[s];
    for i := 0 to |chain|
      invariant |cas| == i
      invariant forall k | 0 <= k < i :: chain[k].to in no && cas[k] == Compacted(chain[k], ncolors, no)
      invariant haslacons <==> haslacons0 || exists k :: 0 <= k < i && chain[k].kind == LACON
    {
      assert chain[i] in n.arcs;
      cas := cas + [Compacted(chain[i], ncolors, no)];
      haslacons := haslacons || chain[i].kind == LACON;
    }
    forall a | a in n.arcs && a.from == s
      ensures a.to in no && Compacted(a, ncolors, no) in cas && (a.kind == LACON ==> haslacons)
    {
      var k :| 0 <= k < |chain| && chain[k] == a;
    }
    forall ca | ca in cas
      ensures Stands(n.arcs, s, ncolors, no, ca)
    {
      var k :| 0 <= k < |cas| && cas[k] == ca;
      assert chain[k] in n.arcs;
    }
  }

  /** States that follow the start mean no progress, and so does the start. */
  method MarkNoProgress(n: Nfa, no: map<nat, nat>, c0: seq<CState>) returns (c: seq<CState>)
    requires n.Valid() && Numbers(n.states, no) && |c0| == |n.states|
    ensures |c| == |c0| && forall i | 0 <= i < |c| :: c[i].outs == c0[i].outs
    ensures forall i | 0 <= i < |c| :: c[i].noprogress <==>
      c0[i].noprogress || n.states[i] == n.pre || Joined(n.arcs, n.pre, n.states[i])
  {
    n.States();
    n.Outs(n.pre);
    var chain := n.outs[n.pre];
    c := MarkOne(n.states, no, c0, n.pre);
    for k := 0 to |chain|
      invariant |c| == |c0| && forall i | 0 <= i < |c| :: c[i].outs == c0[i].outs
      invariant forall i | 0 <= i < |c| :: c[i].noprogress <==>
        c0[i].noprogress || n.states[i] == n.pre || Joined(Elements(chain[..k]), n.pre, n.states[i])
    {
      assert chain[k] in n.arcs;
      assert chain[..k + 1] == chain[..k] + [chain[k]];
      c := MarkOne(n.states, no, c, chain[k].to);
      forall i | 0 <= i < |c|
        ensures Joined(Elements(chain[..k + 1]), n.pre, n.states[i])
                <==> Joined(Elements(chain[..k]), n.pre, n.states[i]) || n.states[i] == chain[k].to
      {
        assert chain[k] in Elements(chain[..k + 1]);
      }
    }
    assert chain[..|chain|] == chain;
    forall i | 0 <= i < |c|
      ensures Joined(Elements(chain), n.pre, n.states[i]) <==> Joined(n.arcs, n.pre, n.states[i])
    {}
  }

  method MarkOne(states: seq<nat>, no: map<nat, nat>, c0: seq<CState>, x: nat) returns (c: seq<CState>)
    requires Numbers(states, no) && |c0| == |states| && x in states && Distinct(states)
    ensures |c| == |c0| && forall i | 0 <= i < |c| :: c[i].outs == c0[i].outs
    ensures forall i | 0 <= i < |c| :: c[i].noprogress <==> c0[i].noprogress || states[i] == x
  {
    c := c0[no[x] := c0[no[x]].(noprogress := true)];
  }

  /** The main loop of `compact`. */
  method CompactStates(n: Nfa, ncolors: nat, no: map<nat, nat>) returns (cs: seq<CState>, haslacons: bool)
    requires n.Valid() && Numbers(n.states, no)
    ensures |cs| == |n.states| && forall k | 0 <= k < |cs| :: !cs[k].noprogress
    ensures forall k | 0 <= k < |cs| :: StateCompact(n.arcs, n.states[k], ncolors, no, cs[k].outs)
    ensures haslacons <==> HasLacons(n.arcs, n.states)
  {
    cs, haslacons := [], false;
    for i := 0 to |n.states|
      invariant |cs| == i && forall k | 0 <= k < i :: !cs[k].noprogress
      invariant forall k | 0 <= k < i :: StateCompact(n.arcs, n.states[k], ncolors, no, cs[k].outs)
      invariant haslacons <==> HasLacons(n.arcs, n.states[..i])
    {
      assert n.states[..i + 1] == n.states[..i] + [n.states[i]];
      var cas;
      cas, haslacons := CompactState(n, n.states[i], ncolors, no, haslacons);
      cs := cs + [CState(false, cas)];
    }
    assert n.states[..|n.states|] == n.states;
  }

  /** `compact`; the arcs of a state are left unsorted. */
  method Compact(n: Nfa, ncolors: nat) returns (c: Cnfa, no: map<nat, nat>)
    requires n.Valid()
    ensures IsCompact(n.G(), n.states, no, c) && c.ncolors == ncolors
    ensures |c.states| == |n.states|
    ensures forall i | 0 <= i < |n.states| ::
              c.states[i].noprogress <==> n.states[i] == n.pre || exists a :: a in n.arcs && a.from == n.pre && a.to == n.states[i]
  {
    no := Renumber(n);
    n.States();
    var cs, haslacons := CompactStates(n, ncolors, no);
    cs := MarkNoProgress(n, no, cs);
    c := Cnfa(cs, ncolors, haslacons, no[n.pre], no[n.post], n.bos, n.eos);
  }
}
