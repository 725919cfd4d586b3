/** Duplicating part of an NFA (regc_nfa.c): `dupnfa`, `duptraverse`. */
module NfaDup {
  import opened Nets
  import opened NetRewrites
  import opened NetSimplify
  import opened NetFragments
  import opened Nfas
  import opened NfaCleanup

  /** The part to duplicate, and where the duplicate is strung. */
  datatype Plan = Plan(g: Net, start: nat, B: set<nat>, stop: nat, from: nat, to: nat)
  {
    /** Nothing leaves `from` or enters `to` yet. */
    ghost predicate Wf() {
      && Frag(g, start, B, stop) && Inner(g, from) && Inner(g, to) && from != to
      && from !in B && from != start && from != stop && to !in B && to != stop
      && forall a | a in g.arcs :: a.from != from && a.to != to
    }

    ghost function Arcs(): set<Arc> {
      Inside(g, start, B)
    }

    ghost predicate Has(x: nat) {
      x in B || x == start || x == stop
    }
  }

  function Copy(a: Arc, t: map<nat, nat>): Arc {
    a.(from := if a.from in t then t[a.from] else 0, to := if a.to in t then t[a.to] else 0)
  }

  /** The duplicates of states are distinct, and new except for the two ends. */
  ghost predicate Images(c: Plan, t: map<nat, nat>, base: nat) {
    && (forall x | x in t :: c.Has(x))
    && c.stop in t && t[c.stop] == c.to && (c.start in t ==> t[c.start] == c.from)
    && c.from < base && c.to < base
    && (forall x | x in t && x != c.start && x != c.stop :: t[x] >= base)
    && forall x, y | x in t && y in t && t[x] == t[y] :: x == y
  }

  /** An arc not there before is the duplicate of one of the part's. */
  ghost predicate Copied(c: Plan, t: map<nat, nat>, a: Arc) {
    exists b :: b in c.Arcs() && b.from in t && b.to in t && a == Copy(b, t)
  }

  ghost predicate Copying(c: Plan, t: map<nat, nat>, base: nat, arcs: set<Arc>) {
    && Images(c, t, base) && c.g.arcs <= arcs
    && forall a | a in arcs - c.g.arcs :: Copied(c, t, a)
  }

  ghost predicate Extends(t0: map<nat, nat>, t: map<nat, nat>) {
    forall x | x in t0 :: x in t && t[x] == t0[x]
  }

  /** States newly duplicated, but perhaps s, have all their outarcs duplicated. */
  ghost predicate Complete(c: Plan, t0: map<nat, nat>, t: map<nat, nat>, arcs: set<Arc>, s: int) {
    forall b | b in c.Arcs() && b.from in t && b.from !in t0 && b.from != s :: b.to in t && Copy(b, t) in arcs
  }

  /** Everything newly duplicated comes after s. */
  ghost predicate After(c: Plan, t0: map<nat, nat>, t: map<nat, nat>, s: nat) {
    forall x | x in t && x !in t0 :: Connected(FragNet(c.g, c.start, c.B), s, x)
  }

  lemma CopyingMore(c: Plan, t0: map<nat, nat>, t: map<nat, nat>, base: nat, arcs: set<Arc>)
    requires Copying(c, t0, base, arcs) && Extends(t0, t) && Images(c, t, base)
    ensures Copying(c, t, base, arcs)
  {
    forall a | a in arcs - c.g.arcs
      ensures Copied(c, t, a)
    {
      var b :| b in c.Arcs() && b.from in t0 && b.to in t0 && a == Copy(b, t0);
      assert a == Copy(b, t);
    }
  }

  /** The outarcs of a state of the part are what they were. */
  lemma OldOuts(c: Plan, t: map<nat, nat>, base: nat, arcs: set<Arc>, s: nat)
    requires c.Wf() && Copying(c, t, base, arcs) && (s in c.B || s == c.start) && s < base
    ensures OutOf(arcs, s) == OutOf(c.g.arcs, s)
  {
    forall a | a in arcs && a.from == s
      ensures a in c.g.arcs
    {
      assert a in arcs - c.g.arcs ==> Copied(c, t, a);
    }
  }

  ghost predicate ImagesThere(n: Nfa)
    reads n
  {
    forall x | x in n.tmp :: n.tmp[x] in n.states
  }

  /** The first half of `duptraverse`: give s its duplicate. */
  method Duplicate(n: Nfa, s: nat, stmp: int, ghost c: Plan, ghost base: nat)
    requires n.Valid() && c.Wf() && SameEnds(c.g, n.G()) && Copying(c, n.tmp, base, n.arcs) && base <= n.next
    requires s in n.states && s !in n.tmp && c.Has(s) && (stmp == NULL || stmp in n.states)
    requires stmp == (if s == c.start then c.from else NULL) && ImagesThere(n)
    modifies n
    ensures n.Valid() && SameEnds(c.g, n.G()) && Copying(c, n.tmp, base, n.arcs) && base <= n.next
    ensures n.arcs == old(n.arcs) && Extends(old(n.tmp), n.tmp) && n.tmp.Keys == old(n.tmp.Keys) + {s}
    ensures ImagesThere(n) && forall x | x in old(n.states) :: x in n.states
  {
    var dup := stmp;
    Below(n);
    if dup == NULL {
      dup := n.NewState();
    }
    ghost var t := n.tmp;
    Mapping(c, t, base, s, dup);
    SetTmp(n, s, dup);
    CopyingMore(c, t, n.tmp, base, n.arcs);
  }

  lemma Below(n: Nfa)
    requires n.Valid()
    ensures forall x | x in n.states :: x < n.next
  {
    n.Unseal();
  }

  lemma Mapping(c: Plan, t: map<nat, nat>, base: nat, s: nat, dup: nat)
    requires c.Wf() && Images(c, t, base) && s !in t && c.Has(s)
    requires if s == c.start then dup == c.from else dup >= base && forall x | x in t :: t[x] != dup
    ensures Images(c, t[s := dup], base)
  {}

  /** Duplicating is under way. */
  ghost predicate Under(n: Nfa, c: Plan, base: nat)
    reads n
  {
    && n.Valid() && c.Wf() && SameEnds(c.g, n.G()) && Copying(c, n.tmp, base, n.arcs) && base <= n.next && ImagesThere(n)
    && forall x: nat | c.Has(x) :: x < base
  }

  /** Duplicates, arcs and states only become more. */
  ghost predicate More(n: Nfa, tmp: map<nat, nat>, arcs: set<Arc>, states: seq<nat>)
    reads n
  {
    Extends(tmp, n.tmp) && arcs <= n.arcs && forall x | x in states :: x in n.states
  }

  /** `duptraverse`: duplicate s, and with it whatever comes after it and has no duplicate yet. */
  method DupTraverse(n: Nfa, s: nat, stmp: int, ghost c: Plan, ghost base: nat)
    requires Under(n, c, base) && s in n.states && c.Has(s) && (stmp == NULL || stmp in n.states)
    requires s !in n.tmp ==> stmp == if s == c.start then c.from else NULL
    modifies n
    ensures Under(n, c, base) && More(n, old(n.tmp), old(n.arcs), old(n.states)) && s in n.tmp
    ensures Complete(c, old(n.tmp), n.tmp, n.arcs, NULL) && After(c, old(n.tmp), n.tmp, s)
    decreases c.B + {c.start, c.stop} - n.tmp.Keys
  {
    if s in n.tmp {
      return;
    }
    Duplicate(n, s, stmp, c, base);
    DupOuts(n, s, c, base, old(n.tmp));
  }

  /** The second half: duplicate the outarcs of s. */
  method DupOuts(n: Nfa, s: nat, ghost c: Plan, ghost base: nat, ghost t0: map<nat, nat>)
    requires Under(n, c, base) && s in n.states && (s in c.B || s == c.start) && s in n.tmp && s !in t0
    requires Extends(t0, n.tmp) && n.tmp.Keys == t0.Keys + {s}
    modifies n
    ensures Under(n, c, base) && More(n, old(n.tmp), old(n.arcs), old(n.states))
    ensures Complete(c, t0, n.tmp, n.arcs, NULL) && After(c, t0, n.tmp, s)
    decreases c.B + {c.start, c.stop} - t0.Keys, 0
  {
    OldOuts(c, n.tmp, base, n.arcs, s);
    n.Outs(s);
    ConnectedSelf(FragNet(c.g, c.start, c.B), s);
    var chain := n.outs[s];
    assert forall a :: a in chain <==> a in OutOf(c.g.arcs, s);
    assert forall k | 0 <= k < |chain| :: chain[k].from == s;
    for i := 0 to |chain|
      invariant Under(n, c, base) && More(n, old(n.tmp), old(n.arcs), old(n.states))
      invariant Complete(c, t0, n.tmp, n.arcs, s) && After(c, t0, n.tmp, s)
      invariant AllDone(chain, i, n.tmp, n.arcs)
    {
      assert chain[i] in OutOf(c.g.arcs, s);
      ghost var t, arcs := n.tmp, n.arcs;
      DupArc(n, s, chain[i], c, base, t0);
      StillDone(chain, i, t, n.tmp, arcs, n.arcs, s);
    }
    OutsComplete(c, t0, n.tmp, n.arcs, s, chain);
  }

  ghost predicate Done(a: Arc, t: map<nat, nat>, arcs: set<Arc>) {
    a.to in t && Copy(a, t) in arcs
  }

  ghost predicate AllDone(chain: seq<Arc>, i: nat, t: map<nat, nat>, arcs: set<Arc>) {
    i <= |chain| && forall k | 0 <= k < i :: Done(chain[k], t, arcs)
  }

  lemma StillDone(chain: seq<Arc>, i: nat, t: map<nat, nat>, t': map<nat, nat>, arcs: set<Arc>, arcs': set<Arc>, s: nat)
    requires AllDone(chain, i, t, arcs) && Extends(t, t') && arcs <= arcs' && s in t
    requires i < |chain| && Done(chain[i], t', arcs') && forall k | 0 <= k < |chain| :: chain[k].from == s
    ensures AllDone(chain, i + 1, t', arcs')
  {
    forall k | 0 <= k < i
      ensures Done(chain[k], t', arcs')
    {
      assert Done(chain[k], t, arcs);
    }
  }

  lemma OutsComplete(c: Plan, t0: map<nat, nat>, t: map<nat, nat>, arcs: set<Arc>, s: nat, chain: seq<Arc>)
    requires Complete(c, t0, t, arcs, s) && forall a :: a in chain <==> a in OutOf(c.g.arcs, s)
    requires AllDone(chain, |chain|, t, arcs)
    ensures Complete(c, t0, t, arcs, NULL)
  {
    forall b | b in c.Arcs() && b.from == s
      ensures b.to in t && Copy(b, t) in arcs
    {
      assert b in OutOf(c.g.arcs, s);
      var k :| 0 <= k < |chain| && chain[k] == b;
      assert Done(chain[k], t, arcs);
    }
  }

  /** Duplicate one outarc of s, and first its destination. */
  method DupArc(n: Nfa, s: nat, a: Arc, ghost c: Plan, ghost base: nat, ghost t0: map<nat, nat>)
    requires Under(n, c, base) && s in n.states && (s in c.B || s == c.start) && s in n.tmp && s !in t0
    requires Extends(t0, n.tmp) && a in c.g.arcs && a.from == s
    requires Complete(c, t0, n.tmp, n.arcs, s) && After(c, t0, n.tmp, s)
    modifies n
    ensures Under(n, c, base) && More(n, old(n.tmp), old(n.arcs), old(n.states))
    ensures Complete(c, t0, n.tmp, n.arcs, s) && After(c, t0, n.tmp, s)
    ensures Done(a, n.tmp, n.arcs)
    decreases c.B + {c.start, c.stop} - t0.Keys, 0, 0
  {
    ghost var t, arcs := n.tmp, n.arcs;
    assert FragArc(a, c.start, c.B, c.stop) && a in n.arcs;
    n.Ends(a);
    assert s in c.B + {c.start, c.stop} - t0.Keys && s !in c.B + {c.start, c.stop} - t.Keys;
    DupTraverse(n, a.to, NULL, c, base);
    CompleteJoin(c, t0, t, n.tmp, arcs, n.arcs, s, a);
    ghost var more := n.arcs;
    n.CpArc(a, n.tmp[s], n.tmp[a.to]);
    OneMore(c, n.tmp, base, more, n.arcs, a);
  }

  lemma CompleteJoin(c: Plan, t0: map<nat, nat>, t: map<nat, nat>, t': map<nat, nat>, arcs: set<Arc>, arcs': set<Arc>, s: nat, a: Arc)
    requires Extends(t0, t) && Extends(t, t') && arcs <= arcs' && a in c.Arcs() && a.from == s && s in t && s !in t0
    requires Complete(c, t0, t, arcs, s) && Complete(c, t, t', arcs', NULL)
    requires After(c, t0, t, s) && After(c, t, t', a.to)
    ensures Complete(c, t0, t', arcs', s) && After(c, t0, t', s)
  {
    forall b | b in c.Arcs() && b.from in t' && b.from !in t0 && b.from != s
      ensures b.to in t' && Copy(b, t') in arcs'
    {
      if b.from in t {
        assert Copy(b, t) in arcs && Copy(b, t') == Copy(b, t);
      }
    }
    var g := FragNet(c.g, c.start, c.B);
    ConnectedArc(g, a);
    forall x | x in t' && x !in t0
      ensures Connected(g, s, x)
    {
      if x !in t {
        ConnectedJoin(g, s, a.to, x);
      }
    }
  }

  lemma OneMore(c: Plan, t: map<nat, nat>, base: nat, arcs: set<Arc>, arcs': set<Arc>, a: Arc)
    requires Copying(c, t, base, arcs) && a in c.Arcs() && a.from in t && a.to in t && arcs' == arcs + {Copy(a, t)}
    ensures Copying(c, t, base, arcs')
  {
    forall b | b in arcs' - c.g.arcs
      ensures Copied(c, t, b)
    {
      if b !in arcs {
        assert b == Copy(a, t);
      }
    }
  }

  // ----- the duplicate

  /** The duplicates of the states inside. */
  ghost function Dups(c: Plan, t: map<nat, nat>): set<nat> {
    set x | x in t && x != c.start && x != c.stop :: t[x]
  }

  /** h is c.g with a duplicate of the part, states from `base` on being new. */
  ghost predicate IsDup(c: Plan, t: map<nat, nat>, base: nat, h: Net) {
    && c.Wf() && SameEnds(c.g, h) && Copying(c, t, base, h.arcs) && c.start in t
    && (forall b | b in c.Arcs() && b.from in t :: b.to in t && Copy(b, t) in h.arcs)
    && (forall a | a in c.g.arcs :: a.from < base && a.to < base)
    && c.g.pre < base && c.g.post < base && c.start < base && c.stop < base && forall x | x in c.B :: x < base
  }

  lemma DupArcs(c: Plan, t: map<nat, nat>, base: nat, h: Net, a: Arc)
    requires IsDup(c, t, base, h) && a in h.arcs
    ensures a.from == c.from || a.from in Dups(c, t) <==> a !in c.g.arcs
    ensures a.to == c.to || a.to in Dups(c, t) <==> a !in c.g.arcs
    ensures a !in c.g.arcs ==> Copied(c, t, a)
  {
    if a !in c.g.arcs {
      assert a in h.arcs - c.g.arcs;
      var b :| b in c.Arcs() && b.from in t && b.to in t && a == Copy(b, t);
      assert FragArc(b, c.start, c.B, c.stop);
    }
  }

  lemma DupForth(c: Plan, t: map<nat, nat>, base: nat, h: Net, s: Subject, p0: nat)
    requires IsDup(c, t, base, h)
    ensures forall q: nat | Passes(c.g, s, c.start, c.B, c.stop, p0, q) :: Passes(h, s, c.from, Dups(c, t), c.to, p0, q)
  {
    var gn, hn := FragNet(c.g, c.start, c.B), FragNet(h, c.from, Dups(c, t));
    var gc, hc := Config(c.start, p0), Config(c.from, p0);
    var inv := (x: nat, p: nat) => x in t && Reached(hn, s, hc, t[x], p);
    ReachedHere(hn, s, hc);
    forall a: Arc, q: nat, p: nat {:trigger Fires(gn, s, a, q, p)} |
      a in gn.arcs && Reached(gn, s, gc, a.from, q) && inv(a.from, q) && Fires(gn, s, a, q, p)
      ensures inv(a.to, p)
    {
      var b := Copy(a, t);
      assert FragArc(a, c.start, c.B, c.stop);
      InnerImages(c, t, base, h, a);
      assert b in hn.arcs;
      ReachedStep(hn, s, hc, b, q, p);
    }
    ReachedInduction(gn, s, gc, inv);
  }

  /** An arc of the part and its duplicate are taken alike. */
  lemma InnerImages(c: Plan, t: map<nat, nat>, base: nat, h: Net, a: Arc)
    requires IsDup(c, t, base, h) && a in c.Arcs() && a.from in t && a.to in t
    ensures forall s: Subject, q, p :: Fires(c.g, s, a, q, p) <==> Fires(h, s, Copy(a, t), q, p)
    ensures Copy(a, t).from == c.from || Copy(a, t).from in Dups(c, t)
  {
    assert FragArc(a, c.start, c.B, c.stop);
    assert a.from == c.start || (a.from != c.stop && t[a.from] in Dups(c, t));
  }

  lemma DupBack(c: Plan, t: map<nat, nat>, base: nat, h: Net, s: Subject, p0: nat)
    requires IsDup(c, t, base, h)
    ensures forall q: nat | Passes(h, s, c.from, Dups(c, t), c.to, p0, q) :: Passes(c.g, s, c.start, c.B, c.stop, p0, q)
  {
    var gn, hn := FragNet(c.g, c.start, c.B), FragNet(h, c.from, Dups(c, t));
    var gc, hc := Config(c.start, p0), Config(c.from, p0);
    var inv := (y: nat, p: nat) => forall x | x in t && t[x] == y :: Reached(gn, s, gc, x, p);
    ReachedHere(gn, s, gc);
    forall a: Arc, q: nat, p: nat {:trigger Fires(hn, s, a, q, p)} |
      a in hn.arcs && Reached(hn, s, hc, a.from, q) && inv(a.from, q) && Fires(hn, s, a, q, p)
      ensures inv(a.to, p)
    {
      DupArcs(c, t, base, h, a);
      assert Copied(c, t, a);
      var b :| b in c.Arcs() && b.from in t && b.to in t && a == Copy(b, t);
      InnerImages(c, t, base, h, b);
      ReachedStep(gn, s, gc, b, q, p);
    }
    ReachedInduction(hn, s, hc, inv);
    forall q: nat | Passes(h, s, c.from, Dups(c, t), c.to, p0, q)
      ensures Passes(c.g, s, c.start, c.B, c.stop, p0, q)
    {
      assert inv(c.to, q) && t[c.stop] == c.to;
    }
  }

  /** The duplicate reads what the part reads, and nothing else has changed. */
  lemma Duplicated(c: Plan, t: map<nat, nat>, base: nat, h: Net)
    requires IsDup(c, t, base, h)
    ensures Frag(h, c.from, Dups(c, t), c.to) && Outside(h, c.from, Dups(c, t)) == c.g.arcs
    ensures Frag(h, c.start, c.B, c.stop) && Inside(h, c.start, c.B) == c.Arcs()
    ensures forall x | x in Dups(c, t) :: x >= base
    ensures forall s: Subject, p: nat, q: nat ::
      Passes(h, s, c.from, Dups(c, t), c.to, p, q) <==> Passes(c.g, s, c.start, c.B, c.stop, p, q)
  {
    forall a | a in h.arcs
      ensures FragArc(a, c.from, Dups(c, t), c.to) && FragArc(a, c.start, c.B, c.stop)
    {
      DupArcs(c, t, base, h, a);
      assert a in c.g.arcs ==> FragArc(a, c.start, c.B, c.stop);
    }
    forall a
      ensures a in Outside(h, c.from, Dups(c, t)) <==> a in c.g.arcs
      ensures a in Inside(h, c.start, c.B) <==> a in c.Arcs()
    {
      if a in h.arcs {
        DupArcs(c, t, base, h, a);
      }
    }
    forall s: Subject, p: nat, q: nat
      ensures Passes(h, s, c.from, Dups(c, t), c.to, p, q) <==> Passes(c.g, s, c.start, c.B, c.stop, p, q)
    {
      DupForth(c, t, base, h, s, p);
      DupBack(c, t, base, h, s, p);
    }
  }

  /** Strings a duplicate between the two states; the links to duplicates are left in place. */
  method StringDup(n: Nfa, ghost c: Plan, start: nat, stop: nat, from: nat, to: nat) returns (ghost t: map<nat, nat>)
    requires n.Valid() && n.tmp == map[] && start in n.states && stop in n.states && from in n.states && to in n.states
    requires c == Plan(n.G(), start, c.B, stop, from, to) && c.Wf() && forall x | x in c.B :: x in n.states
    modifies n
    ensures n.Valid() && n.tmp == t && stop in t && IsDup(c, t, old(n.next), n.G()) && After(c, map[stop := to], t, start)
    ensures (forall x | x in Dups(c, t) :: x in n.states) && forall x | x in old(n.states) :: x in n.states
  {
    ghost var base := n.next;
    Below(n);
    n.States();
    SetTmp(n, stop, to);
    ghost var t0 := n.tmp;
    DupTraverse(n, start, from, c, base);
    t := n.tmp;
    IsDupNow(c, t0, t, base, n.G());
  }

  /** Takes the links to duplicates away again. */
  method ForgetDup(n: Nfa, start: nat, stop: nat, ghost c: Plan, ghost t: map<nat, nat>, ghost base: nat)
    requires n.Valid() && start in n.states && stop in n.states && n.tmp == t && c.start == start && c.stop == stop
    requires IsDup(c, t, base, n.G()) && After(c, map[stop := c.to], t, start)
    modifies n`tmp
    ensures n.Valid() && n.tmp == map[]
  {
    ClearTmp(n, stop);
    ghost var u := n.tmp;
    ClearTraverse(n, start);
    forall x | x in t
      ensures x !in n.tmp
    {
      ClearedAll(c, t, base, n.G(), u, n.tmp, x);
    }
    assert n.tmp == map[];
  }

  /** `dupnfa`: string a duplicate of the part from `start` to `stop` between `from` and `to`. */
  method DupNfa(n: Nfa, start: nat, stop: nat, from: nat, to: nat, ghost B: set<nat>) returns (ghost t: map<nat, nat>)
    requires n.Valid() && n.tmp == map[] && start in n.states && stop in n.states && from in n.states && to in n.states
    requires start != stop ==> Plan(n.G(), start, B, stop, from, to).Wf() && forall x | x in B :: x in n.states
    modifies n
    ensures n.Valid() && n.tmp == map[]
    ensures start == stop ==> n.arcs == old(n.arcs) + {Arc(EMPTY, 0, from, to)}
    ensures start != stop ==> IsDup(Plan(old(n.G()), start, B, stop, from, to), t, old(n.next), n.G())
    ensures start != stop ==> forall x | x in Dups(Plan(old(n.G()), start, B, stop, from, to), t) :: x in n.states
    ensures forall x | x in old(n.states) :: x in n.states
  {
    t := map[];
    if start == stop {
      n.NewArc(EMPTY, 0, from, to);
      return;
    }
    ghost var c, base := Plan(n.G(), start, B, stop, from, to), n.next;
    t := StringDup(n, c, start, stop, from, to);
    ForgetDup(n, start, stop, c, t, base);
  }

  lemma IsDupNow(c: Plan, t0: map<nat, nat>, t: map<nat, nat>, base: nat, h: Net)
    requires c.Wf() && SameEnds(c.g, h) && Copying(c, t, base, h.arcs) && c.start in t && t0 == map[c.stop := c.to]
    requires Complete(c, t0, t, h.arcs, NULL)
    requires forall a | a in c.g.arcs :: a.from < base && a.to < base
    requires c.g.pre < base && c.g.post < base && c.start < base && c.stop < base && forall x | x in c.B :: x < base
    ensures IsDup(c, t, base, h)
  {
    forall b | b in c.Arcs() && b.from in t
      ensures b.to in t && Copy(b, t) in h.arcs
    {
      assert FragArc(b, c.start, c.B, c.stop);
      assert b.from !in t0;
    }
  }

  /** Clearing from the start on reaches everything that was duplicated. */
  lemma ClearedAll(c: Plan, t: map<nat, nat>, base: nat, h: Net, u: map<nat, nat>, v: map<nat, nat>, x: nat)
    requires IsDup(c, t, base, h) && After(c, map[c.stop := c.to], t, c.start) && x in t
    requires u == t - {c.stop} && v.Keys <= u.Keys && c.start !in v && ClearForward(h.arcs, u, v, NULL)
    ensures x !in v
  {
    if x != c.stop {
      var g := FragNet(c.g, c.start, c.B);
      var way :| Way(g, c.start, x, way);
      var S := set y | y in t && y !in v;
      forall a | a in g.arcs && a.from in S
        ensures a.to in S
      {
        assert FragArc(a, c.start, c.B, c.stop) && a in h.arcs;
        assert a.from in u;
      }
      WayForward(g, S, c.start, x, way);
    }
  }
}
