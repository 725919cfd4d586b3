/** Running the lazy DFA (rege_dfa.c): cache misses, lookahead constraints and the longest- and shortest-preferred
    matching engines. */
module DfaEngine {
  import opened Cnfas
  import opened Dfas
  import opened DfaChains
  import opened DfaCache
  import opened DfaSmall
  import opened DfaTimes
  import opened Folding

  // ----- the cache, from one position to the next

  /** A match attempt begun at `start` is ready to move to position cp: only the starter and the current entry css
      were seen later than cp - 1. */
  ghost predicate Ready(d: Dfa, css: nat, cp: nat, start: nat)
    requires d.Shape()
    reads d, d.lastseen
  {
    && css < d.nssused && start <= cp
    && Seen(d.nssused, d.lastseen[..], start, cp)
    && start <= d.lastseen[css] && d.lastseen[css] >= cp - 1
  }

  // ----- the successor state set

  /** The two facts `miss` keeps about the set it is building. */
  ghost predicate Tracks(d: Dfa, ispost: bool, noprogress: bool)
    reads d
  {
    && |d.work| == |d.cnfa.states|
    && ispost == (d.cnfa.post in Bits(d.work))
    && noprogress == NoProgress(d.cnfa, Bits(d.work))
  }

  method AddState(d: Dfa, to: nat, ispost0: bool, noprogress0: bool) returns (ispost: bool, noprogress: bool)
    requires Tracks(d, ispost0, noprogress0) && to < |d.cnfa.states|
    modifies d`work
    ensures Tracks(d, ispost, noprogress)
    ensures Bits(d.work) == old(Bits(d.work)) + {to}
  {
    ghost var before := Bits(d.work);
    ispost, noprogress := ispost0, noprogress0;
    d.work := d.work[to := true];
    if to == d.cnfa.post {
      ispost := true;
    }
    if !d.cnfa.states[to].noprogress {
      noprogress := false;
    }
    assert Bits(d.work) == before + {to};
  }

  /** The states reached by arcs of color co leaving states below i, and by the first k arcs of state i. */
  ghost function DirectUpTo(j: Job, S: set<nat>, co: nat, i: nat, k: nat): set<nat> {
    set x, m | x in S && x < |j.n.states| && 0 <= m < |j.n.states[x].outs|
               && (x < i || (x == i && m < k)) && j.n.states[x].outs[m].co == co
      :: j.n.states[x].outs[m].to
  }

  lemma DirectNextArc(j: Job, S: set<nat>, co: nat, i: nat, k: nat)
    requires i in S && i < |j.n.states| && k < |j.n.states[i].outs|
    ensures DirectUpTo(j, S, co, i, k + 1) ==
            DirectUpTo(j, S, co, i, k) + (if j.n.states[i].outs[k].co == co then {j.n.states[i].outs[k].to} else {})
  {}

  lemma DirectNextState(j: Job, S: set<nat>, co: nat, i: nat)
    requires i < |j.n.states|
    ensures DirectUpTo(j, S, co, i + 1, 0) ==
            DirectUpTo(j, S, co, i, if i in S then |j.n.states[i].outs| else 0)
  {}

  /** `work` and what is kept about it after the first k arcs of state i. */
  ghost predicate Collected(d: Dfa, S: set<nat>, co: nat, i: nat, k: nat, gotstate: bool, ispost: bool, noprogress: bool)
    reads d
  {
    && Bits(d.work) == DirectUpTo(d.J(), S, co, i, k)
    && gotstate == (Bits(d.work) != {}) && Tracks(d, ispost, noprogress)
  }

  /** First half of `miss`: collect in `work` the states one arc of color co away. */
  method CollectDirect(d: Dfa, css: nat, co: nat) returns (gotstate: bool, ispost: bool, noprogress: bool)
    requires d.Shape() && d.cnfa.Wf(d.lim) && css < d.nssused && |d.states[css]| == |d.cnfa.states|
    modifies d`work
    ensures Bits(d.work) == d.J().Direct(Bits(d.states[css]), co)
    ensures gotstate == (Bits(d.work) != {})
    ensures Tracks(d, ispost, noprogress)
  {
    ghost var S, j := Bits(d.states[css]), d.J();
    var n := |d.cnfa.states|;
    d.work := seq(n, _ => false);
    ispost, noprogress, gotstate := false, true, false;
    for i := 0 to n
      invariant Collected(d, S, co, i, 0, gotstate, ispost, noprogress)
      modifies d`work
    {
      DirectNextState(j, S, co, i);
      if d.states[css][i] {
        gotstate, ispost, noprogress := CollectFrom(d, S, i, co, gotstate, ispost, noprogress);
      }
    }
    assert DirectUpTo(j, S, co, n, 0) == j.Direct(S, co);
  }

  method CollectFrom(d: Dfa, ghost S: set<nat>, i: nat, co: nat, gotstate0: bool, ispost0: bool, noprogress0: bool)
    returns (gotstate: bool, ispost: bool, noprogress: bool)
    requires d.cnfa.Wf(d.lim) && i < |d.cnfa.states| && i in S
    requires Collected(d, S, co, i, 0, gotstate0, ispost0, noprogress0)
    modifies d`work
    ensures Collected(d, S, co, i, |d.cnfa.states[i].outs|, gotstate, ispost, noprogress)
  {
    gotstate, ispost, noprogress := gotstate0, ispost0, noprogress0;
    for k := 0 to |d.cnfa.states[i].outs|
      invariant Collected(d, S, co, i, k, gotstate, ispost, noprogress)
      modifies d`work
    {
      gotstate, ispost, noprogress := CollectArc(d, S, i, k, co, gotstate, ispost, noprogress);
    }
  }

  method CollectArc(d: Dfa, ghost S: set<nat>, i: nat, k: nat, co: nat, gotstate0: bool, ispost0: bool, noprogress0: bool)
    returns (gotstate: bool, ispost: bool, noprogress: bool)
    requires d.cnfa.Wf(d.lim) && i < |d.cnfa.states| && k < |d.cnfa.states[i].outs| && i in S
    requires Collected(d, S, co, i, k, gotstate0, ispost0, noprogress0)
    modifies d`work
    ensures Collected(d, S, co, i, k + 1, gotstate, ispost, noprogress)
  {
    var ca := d.cnfa.states[i].outs[k];
    DirectNextArc(d.J(), S, co, i, k);
    assert d.cnfa.WfArc(d.lim, i, ca);
    gotstate, ispost, noprogress := gotstate0, ispost0, noprogress0;
    if ca.co == co {
      ispost, noprogress := AddState(d, ca.to, ispost, noprogress);
      gotstate := true;
    }
  }

  // ----- lookahead constraints

  lemma {:induction false} BitsCount(uv: BitVector)
    ensures |Bits(uv)| <= |uv|
    decreases |uv|
  {
    if |uv| > 0 {
      var m := |uv| - 1;
      BitsCount(uv[..m]);
      assert Bits(uv) == Bits(uv[..m]) + (if uv[m] then {m} else {});
    } else {
      assert Bits(uv) == {};
    }
  }

  /** Constraints among the first k arcs of x that hold at p lead into T. */
  ghost predicate ArcsInto(j: Job, p: nat, x: nat, k: nat, T: set<nat>) {
    forall m: nat, y | m < k && j.LaconArc(p, x, m, y) :: y in T
  }

  /** None of the first k arcs of x is a constraint. */
  ghost predicate PlainArcs(n: Cnfa, x: nat, k: nat)
    requires x < |n.states| && k <= |n.states[x].outs|
  {
    forall m | 0 <= m < k :: n.states[x].outs[m].co <= n.ncolors
  }

  /** The closure under construction lies between the direct successors and the true closure. */
  ghost predicate Closing(d: Dfa, cp: nat, D: set<nat>, ispost: bool, noprogress: bool)
    reads d
  {
    Tracks(d, ispost, noprogress) && D <= Bits(d.work) <= d.J().Closure(cp, D)
  }

  /** Arc k of state i, at position cp. */
  method LaconStep(d: Dfa, cp: nat, i: nat, k: nat, ghost D: set<nat>, ispost0: bool, noprogress0: bool)
    returns (added: bool, ispost: bool, noprogress: bool)
    requires d.Problem() && cp <= |d.v.text|
    requires Closing(d, cp, D, ispost0, noprogress0) && i in Bits(d.work) && k < |d.cnfa.states[i].outs|
    modifies d`work
    ensures Closing(d, cp, D, ispost, noprogress)
    ensures added ==> old(Bits(d.work)) < Bits(d.work) && d.cnfa.states[i].outs[k].co > d.cnfa.ncolors
    ensures !added ==> d.work == old(d.work) && forall y | d.J().LaconArc(cp, i, k, y) :: y in Bits(d.work)
    decreases d.lim, 1
  {
    added, ispost, noprogress := false, ispost0, noprogress0;
    var ca := d.cnfa.states[i].outs[k];
    assert d.cnfa.WfArc(d.lim, i, ca);
    if ca.co <= d.cnfa.ncolors || d.work[ca.to] {
      return;
    }
    var holds := LaconTest(d, cp, ca.co - d.cnfa.ncolors);
    if holds {
      assert d.J().LaconArc(cp, i, k, ca.to);
      ClosureClosed(d.J(), cp, D, i, ca.to);
      ispost, noprogress := AddState(d, ca.to, ispost, noprogress);
      added := true;
    }
  }

  /** The constraints leaving state i, at position cp. */
  method LaconFrom(d: Dfa, cp: nat, i: nat, ghost D: set<nat>, ispost0: bool, noprogress0: bool)
    returns (more: bool, ispost: bool, noprogress: bool, sawlacons: bool)
    requires d.Problem() && cp <= |d.v.text|
    requires Closing(d, cp, D, ispost0, noprogress0) && i in Bits(d.work)
    modifies d`work
    ensures Closing(d, cp, D, ispost, noprogress)
    ensures more ==> old(Bits(d.work)) < Bits(d.work)
    ensures !more ==> d.work == old(d.work) && ArcsInto(d.J(), cp, i, |d.cnfa.states[i].outs|, Bits(d.work))
    ensures !sawlacons ==> !more && PlainArcs(d.cnfa, i, |d.cnfa.states[i].outs|)
    decreases d.lim, 2
  {
    more, ispost, noprogress, sawlacons := false, ispost0, noprogress0, false;
    var outs := d.cnfa.states[i].outs;
    for k := 0 to |outs|
      invariant Closing(d, cp, D, ispost, noprogress) && i in Bits(d.work)
      invariant more ==> old(Bits(d.work)) < Bits(d.work)
      invariant !more ==> d.work == old(d.work) && ArcsInto(d.J(), cp, i, k, Bits(d.work))
      invariant !sawlacons ==> !more && PlainArcs(d.cnfa, i, k)
      modifies d`work
    {
      sawlacons := sawlacons || outs[k].co > d.cnfa.ncolors;
      var added;
      added, ispost, noprogress := LaconStep(d, cp, i, k, D, ispost, noprogress);
      more := more || added;
    }
  }

  /** A pass has dealt with the states below i: if nothing was added their constraints all lead into `work`, and if
      none was seen they have none. */
  ghost predicate Passed(d: Dfa, cp: nat, D: set<nat>, work0: BitVector, i: nat,
                         more: bool, ispost: bool, noprogress: bool, sawlacons: bool)
    requires i <= |d.cnfa.states|
    reads d
  {
    && Closing(d, cp, D, ispost, noprogress)
    && (more ==> Bits(work0) < Bits(d.work))
    && (!more ==> d.work == work0)
    && (!more ==> forall x: nat | x < i && x in Bits(d.work) :: ArcsInto(d.J(), cp, x, |d.cnfa.states[x].outs|, Bits(d.work)))
    && (!sawlacons ==> !more && forall x: nat | x < i && x in Bits(d.work) :: PlainArcs(d.cnfa, x, |d.cnfa.states[x].outs|))
  }

  method PassState(d: Dfa, cp: nat, i: nat, ghost D: set<nat>, ghost work0: BitVector,
                   more0: bool, ispost0: bool, noprogress0: bool, saw0: bool)
    returns (more: bool, ispost: bool, noprogress: bool, sawlacons: bool)
    requires d.Problem() && cp <= |d.v.text| && i < |d.cnfa.states|
    requires Passed(d, cp, D, work0, i, more0, ispost0, noprogress0, saw0)
    modifies d`work
    ensures Passed(d, cp, D, work0, i + 1, more, ispost, noprogress, sawlacons)
    decreases d.lim, 3
  {
    more, ispost, noprogress, sawlacons := more0, ispost0, noprogress0, saw0;
    if d.work[i] {
      var more1, saw1;
      more1, ispost, noprogress, saw1 := LaconFrom(d, cp, i, D, ispost, noprogress);
      more, sawlacons := more || more1, sawlacons || saw1;
    }
  }

  /** One pass over all states reached so far. */
  method LaconPass(d: Dfa, cp: nat, ghost D: set<nat>, ispost0: bool, noprogress0: bool)
    returns (more: bool, ispost: bool, noprogress: bool, sawlacons: bool)
    requires d.Problem() && cp <= |d.v.text| && Closing(d, cp, D, ispost0, noprogress0)
    modifies d`work
    ensures Closing(d, cp, D, ispost, noprogress)
    ensures more ==> old(Bits(d.work)) < Bits(d.work)
    ensures !more ==> d.work == old(d.work) && ClosedUnder(d.J(), cp, Bits(d.work))
    ensures !sawlacons ==> !more && LaconFree(d.cnfa, Bits(d.work))
    decreases d.lim, 4
  {
    more, ispost, noprogress, sawlacons := false, ispost0, noprogress0, false;
    for i := 0 to |d.cnfa.states|
      invariant Passed(d, cp, D, old(d.work), i, more, ispost, noprogress, sawlacons)
      modifies d`work
    {
      more, ispost, noprogress, sawlacons := PassState(d, cp, i, D, old(d.work), more, ispost, noprogress, sawlacons);
    }
  }

  /** Second half of `miss`: close `work` under the lookahead constraints that hold at cp. */
  method CloseLacons(d: Dfa, cp: nat, gotstate: bool, ispost0: bool, noprogress0: bool)
    returns (ispost: bool, noprogress: bool, sawlacons: bool)
    requires d.Problem() && cp <= |d.v.text|
    requires Tracks(d, ispost0, noprogress0) && gotstate == (Bits(d.work) != {})
    modifies d`work
    ensures Tracks(d, ispost, noprogress)
    ensures Bits(d.work) == d.J().Closure(cp, old(Bits(d.work)))
    ensures !sawlacons ==> Bits(d.work) == old(Bits(d.work)) && LaconFree(d.cnfa, Bits(d.work))
    decreases d.lim, 5
  {
    ghost var D := Bits(d.work);
    ClosureContains(d.J(), cp, D);
    ispost, noprogress, sawlacons := ispost0, noprogress0, false;
    var dolacons := gotstate && d.cnfa.haslacons;
    if !dolacons {
      NoLacons(d, D);
    }
    while dolacons
      invariant Closing(d, cp, D, ispost, noprogress)
      invariant !dolacons ==> ClosedUnder(d.J(), cp, Bits(d.work))
      invariant !dolacons && !sawlacons ==> LaconFree(d.cnfa, Bits(d.work))
      invariant !sawlacons ==> Bits(d.work) == D
      decreases |d.cnfa.states| - |Bits(d.work)|, dolacons
      modifies d`work
    {
      BitsCount(d.work);
      ghost var before := Bits(d.work);
      var saw;
      dolacons, ispost, noprogress, saw := LaconPass(d, cp, D, ispost, noprogress);
      sawlacons := sawlacons || saw;
      BitsCount(d.work);
      if dolacons {
        SmallerSet(before, Bits(d.work));
      }
    }
    ClosureLeast(d.J(), cp, D, Bits(d.work));
  }

  lemma {:induction false} SmallerSet(A: set<nat>, B: set<nat>)
    requires A < B
    ensures |A| < |B|
  {
    var C := B - A;
    assert B == A + C;
  }

  lemma NoLacons(d: Dfa, D: set<nat>)
    requires d.cnfa.Wf(d.lim) && (D == {} || !d.cnfa.haslacons)
    requires forall q | q in D :: q < |d.cnfa.states|
    ensures LaconFree(d.cnfa, D)
    ensures forall p: nat :: ClosedUnder(d.J(), p, D)
  {}

  /** `lacon`: does constraint n hold at cp?  A fresh DFA for the constraint's own NFA looks for any match that starts
      there. */
  method LaconTest(d: Dfa, cp: nat, n: nat) returns (b: bool)
    requires d.Problem() && cp <= |d.v.text| && 1 <= n < d.lim
    ensures b == d.la(n, cp)
    decreases d.lim, 0
  {
    var sub := d.v.lacons[n];
    assert Job(d.v, sub.cnfa, Oracle(d.v, n)).Wf(n);
    var d1 := new Dfa(d.v, sub.cnfa, n);
    var end := Longest(d1, cp, |d.v.text|);
    b := if sub.positive then end != NIL else end == NIL;
    ghost var j := Job(d.v, sub.cnfa, Oracle(d.v, n));
    assert d1.J() == j;
    assert end != NIL ==> j.Matches(cp, end);
    assert end == NIL ==> forall e: nat :: !j.Matches(cp, e);
    assert LaconHolds(d.v, n, cp) == b;
  }

  // ----- cache misses

  lemma ArcStep(j: Job, S: set<nat>, c: nat, T: set<nat>, p: nat)
    requires ArcOk(j, S, c, T) && forall q | q in T :: q < |j.n.states|
    ensures j.Step(S, c, p) == T
  {
    ClosureContains(j, p, T);
    ClosureLeast(j, p, T, T);
  }

  /** There is always room for a state set that is not yet in the cache. */
  lemma RoomForNew(d: Dfa, cp: nat, start: nat)
    requires d.Valid() && start <= cp && Seen(d.nssused, d.lastseen[..], start, cp)
    requires Possible(d.cnfa, d.work) && forall e | 0 <= e < d.nssused :: d.states[e] != d.work
    ensures HasRoom(d, cp, start)
  {
    if d.nssused == d.nssets {
      if d.nssets >= 7 {
        VictimExists(d.nssets, d.lastseen[..], cp, start);
        var e :| 1 <= e < d.nssets && (d.lastseen[e] == NIL || d.lastseen[e] < Ancient(d.nssets, cp, start));
        assert EntryOk(d.cnfa, e, d.states[..][e], d.flags[..][e]);
      } else {
        var vs := d.states[..] + [d.work];
        forall i | 0 <= i < |vs|
          ensures Possible(d.cnfa, vs[i])
        {
          if i < d.nssused {
            assert EntryOk(d.cnfa, i, d.states[..][i], d.flags[..][i]);
          }
        }
        FewSets(d.cnfa, d.lim, vs);
      }
    }
  }

  /** Entry p has been vacated for a new state set. */
  ghost predicate Vacated(m0: Memory, m: Memory, lastseen: seq<Ptr>, outs0: seq<seq<int>>, outs: seq<seq<int>>,
                          ncolors: nat, p: nat)
  {
    && m.states == m0.states && |m0.flags| == |lastseen| == |outs|
    && 1 <= p < m.used <= |outs| && p < |lastseen|
    && (if m0.used < |outs| then p == m0.used && m.used == p + 1 else m.used == m0.used)
    && (forall e | 0 <= e < m0.used && e != p :: e < |m.flags| && m.flags[e] == m0.flags[e])
    && Emptied(m0.used, ncolors, outs0, outs, p)
    && (forall c | 0 <= c < ncolors :: c < |outs[p]| && outs[p][c] == NIL)
    && m.lastpost == (if p < m0.used && m0.flags[p].poststate then Later(m0.lastpost, lastseen[p]) else m0.lastpost)
    && m.lastnopr == (if p < m0.used && m0.flags[p].noprogress then Later(m0.lastnopr, lastseen[p]) else m0.lastnopr)
  }

  /** A valid cache from which entry p has been vacated. */
  ghost predicate VacatedFrom(j: Job, m0: Memory, m: Memory, lastseen: seq<Ptr>, outs0: seq<seq<int>>, outs: seq<seq<int>>, p: nat) {
    && m0.used <= |outs0| == |outs| == |m0.states| == |m0.flags|
    && (forall e | 0 <= e < m0.used :: |outs0[e]| == j.n.ncolors)
    && EntriesOk(j.n, m0.used, m0.states, m0.flags) && ArcsOk(j, m0.used, m0.states, outs0)
    && Vacated(m0, m, lastseen, outs0, outs, j.n.ncolors, p)
  }

  /** The call of `getvacant` in `miss`: it never gives up the starter or the current entry. */
  method Vacate(d: Dfa, css: nat, cp: nat, start: nat) returns (p: nat)
    requires d.Valid() && Ready(d, css, cp, start)
    requires Possible(d.cnfa, d.work) && forall e | 0 <= e < d.nssused :: d.states[e] != d.work
    modifies d`nssused, d`search, d`chain, d`lastpost, d`lastnopr, d.flags, d.ins, d.outs, d.inchain
    ensures d.Shape() && d.Problem() && d.Chains()
    ensures css < old(d.nssused) <= d.nssused && p != css
    ensures VacatedFrom(d.J(), old(d.Contents()), d.Contents(), d.lastseen[..], old(d.outs[..]), d.outs[..], p)
  {
    RoomForNew(d, cp, start);
    assert EntryOk(d.cnfa, 0, d.states[..][0], d.flags[..][0]);
    p := GetVacant(d, cp, start);
  }

  /** The entry vacated is given the set in `work` and its flags. */
  method Fill(d: Dfa, p: nat, ispost: bool, noprogress: bool, ghost m0: Memory, ghost outs0: seq<seq<int>>)
    requires d.Shape() && d.Problem() && d.Chains()
    requires VacatedFrom(d.J(), m0, d.Contents(), d.lastseen[..], outs0, d.outs[..], p)
    requires Possible(d.cnfa, d.work) && Tracks(d, ispost, noprogress)
    requires forall e | 0 <= e < m0.used :: m0.states[e] != d.work
    modifies d.states, d.flags
    ensures d.Valid() && d.states[..] == old(d.states[..])[p := d.work] && Kept(m0, d.Contents(), d.lastseen[..], p)
  {
    ghost var m1 := d.Contents();
    d.states[p] := d.work;
    d.flags[p] := Flags(false, ispost, false, noprogress);
    EnteredOk(d.J(), m0, m1, d.Contents(), d.lastseen[..], outs0, d.outs[..], p, d.work, d.flags[p]);
  }

  /** The part of `miss` that takes a new cache entry for the set in `work`. */
  method Enter(d: Dfa, css: nat, co: nat, cp: nat, start: nat, ispost: bool, noprogress: bool) returns (p: nat)
    requires d.Valid() && Ready(d, css, cp, start) && cp <= |d.v.text|
    requires Possible(d.cnfa, d.work) && Tracks(d, ispost, noprogress)
    requires forall e | 0 <= e < d.nssused :: d.states[e] != d.work
    requires co < d.cnfa.ncolors && d.outs[css][co] == NIL
    modifies d`nssused, d`search, d`chain, d`lastpost, d`lastnopr, d.states, d.flags, d.ins, d.outs, d.inchain
    ensures d.Valid() && p < d.nssused && css < d.nssused
    ensures d.outs[..][css][co] == NIL && d.states[css] == old(d.states[css])
    ensures d.states[p] == d.work && Kept(old(d.Contents()), d.Contents(), d.lastseen[..], p)
  {
    ghost var m0, outs0 := d.Contents(), d.outs[..];
    p := Vacate(d, css, cp, start);
    StillNil(d.J(), m0, d.Contents(), d.lastseen[..], outs0, d.outs[..], p, css, co);
    Fill(d, p, ispost, noprogress, m0, outs0);
    assert d.states[..][css] == m0.states[css] && d.states[..][p] == d.work;
  }

  lemma StillNil(j: Job, m0: Memory, m: Memory, lastseen: seq<Ptr>, outs0: seq<seq<int>>, outs: seq<seq<int>>, p: nat, s: nat, c: nat)
    requires VacatedFrom(j, m0, m, lastseen, outs0, outs, p) && s < m0.used && s != p && c < j.n.ncolors && outs0[s][c] == NIL
    ensures c < |outs[s]| && outs[s][c] == NIL
  {}

  lemma EnteredOk(j: Job, m0: Memory, m1: Memory, m: Memory, lastseen: seq<Ptr>, outs0: seq<seq<int>>, outs: seq<seq<int>>,
                  p: nat, work: BitVector, f: Flags)
    requires m0.used <= |outs0| == |outs| == |lastseen| == |m0.states| == |m0.flags| == |m.flags|
    requires |m1.states| == |m1.flags| == |outs|
    requires forall e | 0 <= e < m0.used :: |outs0[e]| == j.n.ncolors
    requires forall e | 0 <= e < m1.used <= |outs| :: |outs[e]| == j.n.ncolors
    requires EntriesOk(j.n, m0.used, m0.states, m0.flags) && ArcsOk(j, m0.used, m0.states, outs0)
    requires Vacated(m0, m1, lastseen, outs0, outs, j.n.ncolors, p)
    requires m == m1.(states := m1.states[p := work], flags := m1.flags[p := f])
    requires EntryOk(j.n, p, work, f)
    requires forall e | 0 <= e < m0.used :: m0.states[e] != work
    ensures EntriesOk(j.n, m.used, m.states, m.flags) && ArcsOk(j, m.used, m.states, outs)
    ensures Kept(m0, m, lastseen, p)
  {
    forall e | 0 <= e < m.used
      ensures EntryOk(j.n, e, m.states[e], m.flags[e])
    {
      if e != p {
        assert EntryOk(j.n, e, m0.states[e], m0.flags[e]);
      }
    }
  }

  /** The first part of `miss`: the set of states a character leads to is collected in `work`. */
  method Successor(d: Dfa, css: nat, co: nat, cp: nat)
    returns (gotstate: bool, ispost: bool, noprogress: bool, sawlacons: bool)
    requires d.Valid() && css < d.nssused && cp <= |d.v.text| && co < d.cnfa.ncolors
    modifies d`work
    ensures Bits(d.work) == d.J().Step(Bits(d.states[css]), co, cp)
    ensures Tracks(d, ispost, noprogress) && gotstate == (Bits(d.work) != {})
    ensures gotstate ==> Possible(d.cnfa, d.work)
    ensures !sawlacons ==> ArcOk(d.J(), Bits(d.states[css]), co, Bits(d.work))
    decreases d.lim, 6
  {
    ghost var S, j := Bits(d.states[css]), d.J();
    assert EntryOk(d.cnfa, css, d.states[..][css], d.flags[..][css]);
    gotstate, ispost, noprogress := CollectDirect(d, css, co);
    ghost var D := Bits(d.work);
    ClosureContains(j, cp, D);
    ispost, noprogress, sawlacons := CloseLacons(d, cp, gotstate, ispost, noprogress);
    if gotstate {
      StepFamily(j, d.lim, S, co, cp);
    } else {
      ClosureEmpty(j, cp);
    }
  }

  /** Is the set in `work` in the cache? */
  method Lookup(d: Dfa) returns (p: nat)
    requires d.Shape()
    ensures p <= d.nssused && forall e | 0 <= e < p :: d.states[e] != d.work
    ensures p < d.nssused ==> d.states[p] == d.work
  {
    p := 0;
    while p < d.nssused && d.states[p] != d.work
      invariant p <= d.nssused && forall e | 0 <= e < p :: d.states[e] != d.work
    {
      p := p + 1;
    }
  }

  /** The cache entry for the set in `work`, made if need be. */
  method FindOrEnter(d: Dfa, css: nat, co: nat, cp: nat, start: nat, ispost: bool, noprogress: bool) returns (p: nat)
    requires d.Valid() && Ready(d, css, cp, start) && cp <= |d.v.text|
    requires co < d.cnfa.ncolors && d.outs[css][co] == NIL
    requires Possible(d.cnfa, d.work) && Tracks(d, ispost, noprogress)
    modifies d`nssused, d`search, d`chain, d`lastpost, d`lastnopr, d.states, d.flags, d.ins, d.outs, d.inchain
    ensures d.Valid() && p < d.nssused
    ensures d.states[p] == d.work && Kept(old(d.Contents()), d.Contents(), d.lastseen[..], p) && d.states[css] == old(d.states[css])
    ensures d.outs[css][co] == NIL
  {
    p := Lookup(d);
    if p == d.nssused {
      p := Enter(d, css, co, cp, start, ispost, noprogress);
    }
  }

  /** Memoise a transition that does not depend on the position. */
  method Record(d: Dfa, css: nat, co: nat, p: nat)
    requires d.Valid() && css < d.nssused && p < d.nssused && co < d.cnfa.ncolors && d.outs[css][co] == NIL
    requires ArcOk(d.J(), Bits(d.states[css]), co, Bits(d.states[p]))
    modifies d`chain, d.outs, d.ins, d.inchain
    ensures d.Valid() && d.Contents() == old(d.Contents())
  {
    ghost var outs0 := d.outs[..];
    Memoise(d, css, co, p);
    RecordedOk(d.J(), d.nssused, d.states[..], outs0, css, co, p);
  }

  lemma RecordedOk(j: Job, used: nat, states: seq<BitVector>, outs: seq<seq<int>>, s: nat, c: nat, p: nat)
    requires used <= |states| && used <= |outs| && s < used && p < used && c < j.n.ncolors
    requires forall e | 0 <= e < used :: |outs[e]| == j.n.ncolors
    requires ArcsOk(j, used, states, outs) && ArcOk(j, Bits(states[s]), c, Bits(states[p]))
    ensures ArcsOk(j, used, states, outs[s := outs[s][c := p]])
  {}

  /** The entry for the set in `work`, found or made, and the transition to it recorded unless it depends on the
      position. */
  method Land(d: Dfa, css: nat, co: nat, cp: nat, start: nat, ispost: bool, noprogress: bool, sawlacons: bool) returns (p: nat)
    requires d.Valid() && Ready(d, css, cp, start) && cp <= |d.v.text|
    requires co < d.cnfa.ncolors && d.outs[css][co] == NIL
    requires Possible(d.cnfa, d.work) && Tracks(d, ispost, noprogress)
    requires !sawlacons ==> ArcOk(d.J(), Bits(d.states[css]), co, Bits(d.work))
    modifies d`nssused, d`search, d`chain, d`lastpost, d`lastnopr, d.states, d.flags, d.ins, d.outs, d.inchain
    ensures d.Valid() && p < d.nssused
    ensures d.states[p] == d.work && Kept(old(d.Contents()), d.Contents(), d.lastseen[..], p) && d.states[css] == old(d.states[css])
  {
    p := FindOrEnter(d, css, co, cp, start, ispost, noprogress);
    if !sawlacons {
      Record(d, css, co, p);
    }
  }

  /** `miss`: the entry css moves to on color co, arriving at cp; NIL if no state is left. */
  method Miss(d: Dfa, css: nat, co: nat, cp: nat, start: nat) returns (r: int)
    requires d.Valid() && Ready(d, css, cp, start) && cp <= |d.v.text| && co < d.cnfa.ncolors
    modifies d`work, d`nssused, d`search, d`chain, d`lastpost, d`lastnopr, d.states, d.flags, d.ins, d.outs, d.inchain
    ensures d.Valid()
    ensures r == NIL <==> d.J().Step(old(Bits(d.states[css])), co, cp) == {}
    ensures r == NIL ==> d.Contents() == old(d.Contents())
    ensures r != NIL ==> 0 <= r < d.nssused && Kept(old(d.Contents()), d.Contents(), d.lastseen[..], r)
                         && d.states[css] == old(d.states[css])
                         && Bits(d.states[r]) == d.J().Step(old(Bits(d.states[css])), co, cp)
    decreases d.lim, 7
  {
    if d.outs[css][co] != NIL {
      r := d.outs[css][co];
      CachedStep(d, css, co, cp);
      return;
    }
    var gotstate, ispost, noprogress, sawlacons := Successor(d, css, co, cp);
    if !gotstate {
      return NIL;
    }
    r := Land(d, css, co, cp, start, ispost, noprogress, sawlacons);
  }

  /** Taking a memoised transition is taking the true one. */
  lemma CachedStep(d: Dfa, css: nat, co: nat, cp: nat)
    requires d.Valid() && css < d.nssused && co < d.cnfa.ncolors && d.outs[css][co] != NIL
    ensures 0 <= d.outs[css][co] < d.nssused
    ensures Bits(d.states[d.outs[css][co]]) == d.J().Step(Bits(d.states[css]), co, cp)
    ensures Bits(d.states[d.outs[css][co]]) != {}
  {
    var r := d.outs[..][css][co];
    assert EntryOk(d.cnfa, r, d.states[..][r], d.flags[..][r]);
    ArcStep(d.J(), Bits(d.states[css]), co, Bits(d.states[r]), cp);
  }

  // ----- the matching engines

  /** `initialize`: make sure the starter entry is there and forget all times. */
  method Initialize(d: Dfa, start: nat, ghost h: Trail) returns (ss: nat)
    requires d.Valid() && start <= |d.v.text|
    modifies d`nssused, d`search, d`chain, d`lastpost, d`lastnopr, d.states, d.flags, d.ins, d.outs, d.inchain, d.lastseen
    ensures d.Valid() && ss == 0 < d.nssused && Bits(d.states[0]) == {d.cnfa.pre}
    ensures d.lastseen[0] == start && Told(d.cnfa, h, d.Contents(), d.lastseen[..], start, start)
    ensures (forall e | 0 < e < d.nssused :: d.lastseen[e] == NIL) && d.lastpost == d.lastnopr == NIL
    ensures old(d.nssused) > 0 ==> d.nssused == old(d.nssused) && d.states[..] == old(d.states[..]) && d.flags[..] == old(d.flags[..])
    ensures old(d.nssused) > 0 ==> d.outs[..] == old(d.outs[..]) && d.ins[..] == old(d.ins[..]) && d.inchain[..] == old(d.inchain[..])
    ensures old(d.nssused) == 0 ==> d.nssused == 1
  {
    if d.nssused > 0 {
      assert EntryOk(d.cnfa, 0, d.states[..][0], d.flags[..][0]);
    }
    if d.nssused > 0 && d.flags[0].starter {
      ss := 0;
    } else {
      ss := BuildStarter(d, start);
    }
    ForgetTimes(d);
    d.lastseen[ss] := start;
    d.lastpost := NIL;
    d.lastnopr := NIL;
  }

  method ForgetTimes(d: Dfa)
    requires d.Shape()
    modifies d.lastseen
    ensures forall e | 0 <= e < d.nssused :: d.lastseen[e] == NIL
  {
    for i := 0 to d.nssused
      invariant forall e | 0 <= e < i :: d.lastseen[e] == NIL
    {
      d.lastseen[i] := NIL;
    }
  }

  /** The hand-crafted starter of an empty cache: the pre state alone, never to be evicted. */
  method BuildStarter(d: Dfa, start: nat) returns (ss: nat)
    requires d.Valid() && d.nssused == 0
    modifies d`nssused, d`search, d`chain, d`lastpost, d`lastnopr, d.states, d.flags, d.ins, d.outs, d.inchain
    ensures d.Valid() && ss == 0 && d.nssused == 1 && Bits(d.states[0]) == {d.cnfa.pre}
  {
    ss := GetVacant(d, start, start);
    d.states[ss] := seq(|d.cnfa.states|, i => i == d.cnfa.pre);
    d.flags[ss] := Flags(true, false, true, true);
    StarterOk(d.J(), d.lim, d.states[0], d.flags[0]);
  }

  lemma StarterOk(j: Job, lim: nat, uv: BitVector, f: Flags)
    requires j.Wf(lim) && |uv| == |j.n.states| && f == Flags(true, false, true, true)
    requires forall i | 0 <= i < |uv| :: uv[i] <==> i == j.n.pre
    ensures EntryOk(j.n, 0, uv, f)
  {
    assert j.n.pre in Bits(uv);
    assert Bits(uv) == {j.n.pre};
  }

  /** One step of an engine: from the entry for position cp - 1 (for cp == start, from the starter) to the entry for
      position cp. */
  method Move(d: Dfa, css: nat, co: nat, cp: nat, start: nat, ghost h: Trail) returns (r: int)
    requires d.Valid() && start <= cp <= |d.v.text| && co < d.cnfa.ncolors
    requires Told(d.cnfa, h, d.Contents(), d.lastseen[..], start, cp)
    requires css < d.nssused && start <= d.lastseen[css] && d.lastseen[css] >= cp - 1
    requires d.J().Step(Bits(d.states[css]), co, cp) == h(cp)
    modifies d`work, d`nssused, d`search, d`chain, d`lastpost, d`lastnopr, d.states, d.flags, d.ins, d.outs, d.inchain, d.lastseen
    ensures d.Valid()
    ensures r == NIL <==> h(cp) == {}
    ensures r == NIL ==> d.Contents() == old(d.Contents()) && d.lastseen[..] == old(d.lastseen[..])
    ensures r != NIL ==> 0 <= r < d.nssused && d.lastseen[r] == cp && Bits(d.states[r]) == h(cp)
                         && Told(d.cnfa, h, d.Contents(), d.lastseen[..], start, cp + 1)
    decreases d.lim, 8
  {
    ghost var m0 := d.Contents();
    ToldSeen(d.cnfa, h, m0, d.lastseen[..], start, cp, cp);
    r := d.outs[css][co];
    if r == NIL {
      r := Miss(d, css, co, cp, start);
    } else {
      CachedStep(d, css, co, cp);
    }
    if r != NIL {
      ghost var lastseen: seq<Ptr> := d.lastseen[..];
      Arrived(d.cnfa, h, m0, d.Contents(), lastseen, start, cp, r);
      d.lastseen[r] := cp;
      assert d.lastseen[..] == lastseen[r := cp];
    }
  }

  /** The longest match from `start` that ends at or before `stop`. */
  ghost predicate IsLongest(j: Job, start: nat, stop: nat, r: int) {
    && (r == NIL || (start <= r <= stop && j.Matches(start, r)))
    && forall e | start <= e <= stop && e > r :: !j.Matches(start, e)
  }

  /** `longest`'s final scan for the last goal position. */
  method LatestPost(d: Dfa, ghost start: nat, ghost lim: nat, ghost h: Trail) returns (post: Ptr)
    requires d.Shape() && ScanOk(d.cnfa, h, d.Contents(), d.lastseen[..], start, lim, true)
    ensures IsLatest(d.cnfa, h, start, lim, true, post)
  {
    ghost var m, lastseen := d.Contents(), d.lastseen[..];
    post := d.lastpost;
    for e := 0 to d.nssused
      invariant post == NIL || (post < lim && HasAt(d.cnfa, h, start, post, true))
      invariant d.lastpost <= post
      invariant forall f | 0 <= f < e && m.flags[f].poststate :: lastseen[f] <= post
    {
      assert FlagTrue(d.cnfa, h, m, lastseen, start, lim, true, e);
      if d.flags[e].poststate && post != d.lastseen[e] && (post == NIL || post < d.lastseen[e]) {
        post := d.lastseen[e];
      }
    }
    forall q: nat | q < lim && HasAt(d.cnfa, h, start, q, true)
      ensures q <= post
    {
      assert Known(m, lastseen, true, q);
    }
  }

  /** An engine stands at position cp, in the entry for its state set. */
  ghost predicate AtEntry(d: Dfa, css: nat, cp: nat, start: nat, h: Trail, m: Memory)
    reads d, d.states, d.flags, d.outs, d.ins, d.inchain, d.lastseen
  {
    && d.Valid() && cp <= |d.v.text| && css < d.nssused && d.lastseen[css] == cp && m == d.Contents()
    && Bits(d.states[css]) == h(cp)
    && Told(d.cnfa, h, m, d.lastseen[..], start, cp + 1)
  }

  ghost predicate Sealed(d: Dfa, css: nat, cp: nat, start: nat, h: Trail, m: Memory)
    reads d, d.states, d.flags, d.outs, d.ins, d.inchain, d.lastseen
  {
    forall u {:trigger Look(u)} :: Look(u) ==> AtEntry(d, css, cp, start, h, m)
  }

  /** AtEntry in some memory, carried along by the loops without being looked into. */
  ghost predicate At(d: Dfa, css: nat, cp: nat, start: nat, h: Trail)
    reads d, d.states, d.flags, d.outs, d.ins, d.inchain, d.lastseen
  {
    start <= cp <= |d.v.text| && css < d.flags.Length && exists m: Memory :: Sealed(d, css, cp, start, h, m)
  }

  lemma Seal(d: Dfa, css: nat, cp: nat, start: nat, h: Trail)
    requires start <= cp && AtEntry(d, css, cp, start, h, d.Contents())
    ensures At(d, css, cp, start, h)
  {
    assert Sealed(d, css, cp, start, h, d.Contents());
  }

  lemma Unseal(d: Dfa, css: nat, cp: nat, start: nat, h: Trail)
    requires At(d, css, cp, start, h)
    ensures AtEntry(d, css, cp, start, h, d.Contents())
  {
    assert Look(0);
  }

  /** Once the trail is empty, no match ends at e or later. */
  lemma DeadEnd(j: Job, lim: nat, h: Trail, start: nat, cp: nat, e: nat)
    requires j.Wf(lim) && start <= cp <= |j.v.text| && Follows(j, start, h) && h(cp) == {}
    requires start <= e && (cp <= e || e + 1 == cp)
    ensures !j.Matches(start, e)
  {
    assert j.States(start, cp) == h(cp);
    if cp <= e <= |j.v.text| {
      DeadStates(j, start, cp, e);
    }
  }

  /** Startup, common to both engines: from the starter past the character before `start`. */
  method Startup(d: Dfa, start: nat, ghost h: Trail) returns (css: int)
    requires d.Valid() && start <= |d.v.text| && Follows(d.J(), start, h)
    modifies d`work, d`nssused, d`search, d`chain, d`lastpost, d`lastnopr, d.states, d.flags, d.ins, d.outs, d.inchain, d.lastseen
    ensures d.Valid()
    ensures css == NIL ==> h(start) == {}
    ensures css != NIL ==> 0 <= css && At(d, css, start, start, h) && !HasAt(d.cnfa, h, start, start, true)
    decreases d.lim, 9
  {
    var starter := Initialize(d, start, h);
    var co := if start == 0 then d.cnfa.bos[if d.v.notbol then 0 else 1] else d.v.cm(d.v.text[start - 1]);
    assert d.J().States(start, start) == h(start);
    css := Move(d, starter, co, start, start, h);
    if css != NIL {
      Seal(d, css, start, start, h);
    }
    PreNoPost(d.J(), d.lim, co, start);
  }

  /** One round of either main loop; NIL if no state is left. */
  method Advance(d: Dfa, css: nat, cp: nat, start: nat, ghost h: Trail) returns (ss: int)
    requires At(d, css, cp, start, h) && cp < |d.v.text| && Follows(d.J(), start, h)
    modifies d`work, d`nssused, d`search, d`chain, d`lastpost, d`lastnopr, d.states, d.flags, d.ins, d.outs, d.inchain, d.lastseen
    ensures ss == NIL ==> At(d, css, cp, start, h) && h(cp + 1) == {}
    ensures ss != NIL ==> 0 <= ss && At(d, ss, cp + 1, start, h)
    decreases d.lim, 9
  {
    Unseal(d, css, cp, start, h);
    var co := d.v.cm(d.v.text[cp]);
    assert d.J().States(start, cp) == h(cp) && d.J().States(start, cp + 1) == h(cp + 1);
    ss := Move(d, css, co, cp + 1, start, h);
    if ss == NIL {
      Seal(d, css, cp, start, h);
    } else {
      Seal(d, ss, cp + 1, start, h);
    }
  }

  /** The step past the end of the string; was the goal there? */
  method EosStep(d: Dfa, css: nat, start: nat, tidy: bool, ghost h: Trail) returns (goal: bool)
    requires At(d, css, |d.v.text|, start, h) && Follows(d.J(), start, h)
    modifies d`work, d`nssused, d`search, d`chain, d`lastpost, d`lastnopr, d.states, d.flags, d.ins, d.outs, d.inchain, d.lastseen
    ensures d.Valid()
    ensures goal == d.J().Matches(start, |d.v.text|)
    ensures tidy && !goal ==> ScanOk(d.cnfa, h, d.Contents(), d.lastseen[..], start, |d.v.text| + 1, true)
    decreases d.lim, 9
  {
    Unseal(d, css, |d.v.text|, start, h);
    var n := |d.v.text|;
    var co := d.cnfa.eos[if d.v.noteol then 0 else 1];
    ghost var m0 := d.Contents();
    ghost var lastseen: seq<Ptr> := d.lastseen[..];
    assert d.J().States(start, n) == h(n);
    ToldSeen(d.cnfa, h, m0, lastseen, start, n + 1, n);
    var ss := Miss(d, css, co, n, start);
    if ss == NIL {
      ToldScan(d.cnfa, h, m0, lastseen, start, n + 1, true);
      return false;
    }
    assert EntryOk(d.cnfa, ss, d.states[..][ss], d.flags[..][ss]);
    goal := d.flags[ss].poststate;
    if tidy && !goal {
      EosScan(d.cnfa, h, m0, d.Contents(), lastseen, start, n, ss);
      d.lastseen[ss] := n;
      assert d.lastseen[..] == lastseen[ss := n];
    }
  }

  lemma GoalAhead(j: Job, lim: nat, h: Trail, b: nat, e: nat)
    requires j.Wf(lim) && b <= e < |j.v.text| && Follows(j, b, h)
    ensures j.Matches(b, e) <==> HasAt(j.n, h, b, e + 1, true)
  {
    assert j.States(b, e + 1) == h(e + 1);
  }

  /** The main loop of `longest`. */
  method Run(d: Dfa, css0: nat, start: nat, realstop: nat, ghost h: Trail) returns (css: nat, cp: nat)
    requires At(d, css0, start, start, h) && start <= realstop <= |d.v.text| && Follows(d.J(), start, h)
    modifies d`work, d`nssused, d`search, d`chain, d`lastpost, d`lastnopr, d.states, d.flags, d.ins, d.outs, d.inchain, d.lastseen
    ensures start <= cp <= realstop && At(d, css, cp, start, h)
    ensures cp == realstop || h(cp + 1) == {}
    decreases d.lim, 10
  {
    css, cp := css0, start;
    while cp < realstop
      invariant start <= cp <= realstop && At(d, css, cp, start, h)
    {
      var ss := Advance(d, css, cp, start, h);
      if ss == NIL {
        return;
      }
      cp, css := cp + 1, ss;
    }
  }

  /** `longest`: the end of the longest match from `start` ending at or before `stop`, NIL if there is none. */
  method Longest(d: Dfa, start: nat, stop: nat) returns (r: int)
    requires d.Valid() && start <= stop <= |d.v.text|
    modifies d`work, d`nssused, d`search, d`chain, d`lastpost, d`lastnopr, d.states, d.flags, d.ins, d.outs, d.inchain, d.lastseen
    ensures d.Valid()
    ensures IsLongest(d.J(), start, stop, r)
    decreases d.lim, 12
  {
    ghost var h := TrailOf(d.J(), start);
    TrailFollows(d.J(), start);
    var css := Startup(d, start, h);
    if css == NIL {
      NothingFrom(d.J(), d.lim, h, start, stop);
      return NIL;
    }
    r := LongestFrom(d, css, start, stop, h);
  }

  lemma NothingFrom(j: Job, lim: nat, h: Trail, start: nat, stop: nat)
    requires j.Wf(lim) && start <= |j.v.text| && Follows(j, start, h) && h(start) == {}
    ensures forall e: nat | start <= e <= stop :: !j.Matches(start, e)
  {
    forall e: nat | start <= e <= stop
      ensures !j.Matches(start, e)
    {
      DeadEnd(j, lim, h, start, start, e);
    }
  }

  /** Main loop, shutdown and final scan of `longest`. */
  method LongestFrom(d: Dfa, css0: nat, start: nat, stop: nat, ghost h: Trail) returns (r: int)
    requires At(d, css0, start, start, h) && start <= stop <= |d.v.text| && Follows(d.J(), start, h)
    requires !HasAt(d.cnfa, h, start, start, true)
    modifies d`work, d`nssused, d`search, d`chain, d`lastpost, d`lastnopr, d.states, d.flags, d.ins, d.outs, d.inchain, d.lastseen
    ensures d.Valid()
    ensures IsLongest(d.J(), start, stop, r)
    decreases d.lim, 11
  {
    var css, cp := Run(d, css0, start, if stop == |d.v.text| then stop else stop + 1, h);
    r := FinishLong(d, css, cp, start, stop, h);
  }

  /** Shutdown and final scan of `longest`, from the position cp the main loop ended at. */
  method FinishLong(d: Dfa, css: nat, cp: nat, start: nat, stop: nat, ghost h: Trail) returns (r: int)
    requires At(d, css, cp, start, h) && start <= stop <= |d.v.text| && Follows(d.J(), start, h)
    requires !HasAt(d.cnfa, h, start, start, true)
    requires cp == (if stop == |d.v.text| then stop else stop + 1) || (cp <= stop && cp < |d.v.text| && h(cp + 1) == {})
    modifies d`work, d`nssused, d`search, d`chain, d`lastpost, d`lastnopr, d.states, d.flags, d.ins, d.outs, d.inchain, d.lastseen
    ensures d.Valid()
    ensures IsLongest(d.J(), start, stop, r)
    decreases d.lim, 10
  {
    if cp == |d.v.text| && stop == |d.v.text| {
      var goal := EosStep(d, css, start, true, h);
      if goal {
        return cp;
      }
      r := ReadEnd(d, cp, start, stop, h);
    } else {
      Unseal(d, css, cp, start, h);
      ToldScan(d.cnfa, h, d.Contents(), d.lastseen[..], start, cp + 1, true);
      r := ReadEnd(d, cp, start, stop, h);
    }
  }

  method ReadEnd(d: Dfa, ghost cp: nat, ghost start: nat, ghost stop: nat, ghost h: Trail) returns (r: int)
    requires d.Shape() && d.J().Wf(d.lim) && start <= stop <= |d.v.text| && Follows(d.J(), start, h)
    requires ScanOk(d.cnfa, h, d.Contents(), d.lastseen[..], start, cp + 1, true)
    requires !HasAt(d.cnfa, h, start, start, true)
    requires start <= cp <= |d.v.text| && cp <= stop + 1
    requires cp == stop + 1 || (cp < |d.v.text| && h(cp + 1) == {}) || (cp == stop == |d.v.text| && !d.J().Matches(start, stop))
    ensures IsLongest(d.J(), start, stop, r)
  {
    var post := LatestPost(d, start, cp + 1, h);
    LongestFound(d.J(), d.lim, h, start, stop, cp, post);
    r := if post != NIL then post - 1 else NIL;
  }

  /** The goal position one past the match is the latest, so the match is the longest. */
  lemma LongestFound(j: Job, lim: nat, h: Trail, start: nat, stop: nat, cp: nat, post: Ptr)
    requires j.Wf(lim) && start <= stop <= |j.v.text| && start <= cp <= |j.v.text| && cp <= stop + 1
    requires Follows(j, start, h) && !HasAt(j.n, h, start, start, true)
    requires IsLatest(j.n, h, start, cp + 1, true, post)
    requires cp == stop + 1 || (cp < |j.v.text| && h(cp + 1) == {}) || (cp == stop == |j.v.text| && !j.Matches(start, stop))
    ensures IsLongest(j, start, stop, if post != NIL then post - 1 else NIL)
  {
    if post != NIL {
      GoalAhead(j, lim, h, start, post - 1);
    }
    forall e | start <= e <= stop && e >= post
      ensures !j.Matches(start, e)
    {
      if e >= cp && cp < |j.v.text| && h(cp + 1) == {} {
        DeadEnd(j, lim, h, start, cp + 1, e);
      } else if e < |j.v.text| {
        GoalAhead(j, lim, h, start, e);
      }
    }
  }

  /** The shortest match from `start` that ends in [min, max]. */
  ghost predicate IsShortest(j: Job, start: nat, min: nat, max: nat, r: int) {
    && (r == NIL || (min <= r <= max && j.Matches(start, r)))
    && forall e: nat | min <= e <= max && (r == NIL || e < r) :: !j.Matches(start, e)
  }

  /** The last position up to `last` without progress, `start` if there is none. */
  ghost predicate IsCold(n: Cnfa, h: Trail, start: nat, last: nat, cold: int) {
    && start <= cold <= last && (cold == start || HasAt(n, h, start, cold, false))
    && forall q: nat | q <= last && HasAt(n, h, start, q, false) :: q <= cold
  }

  /** `lastcold`: the latest position with no progress, from the entries and what is remembered of evicted ones. */
  method LastCold(d: Dfa, start: nat, cp: nat, ghost h: Trail) returns (nopr: int)
    requires d.Shape() && start <= cp && d.nssused > 0 && d.flags[0].noprogress && d.lastseen[0] >= start
    requires ScanOk(d.cnfa, h, d.Contents(), d.lastseen[..], start, cp + 1, false)
    ensures IsCold(d.cnfa, h, start, cp, nopr)
  {
    ghost var m, lastseen := d.Contents(), d.lastseen[..];
    nopr := d.lastnopr;
    if nopr == NIL {
      nopr := 0;
    }
    for e := 0 to d.nssused
      invariant d.lastnopr <= nopr && nopr <= cp
      invariant nopr <= start || HasAt(d.cnfa, h, start, nopr, false)
      invariant forall f | 0 <= f < e && m.flags[f].noprogress :: lastseen[f] <= nopr
    {
      assert FlagTrue(d.cnfa, h, m, lastseen, start, cp + 1, false, e);
      if d.flags[e].noprogress && nopr < d.lastseen[e] {
        nopr := d.lastseen[e];
      }
    }
    assert m.flags[0].noprogress && lastseen[0] >= start;
    forall q: nat | q <= cp && HasAt(d.cnfa, h, start, q, false)
      ensures q <= nopr
    {
      assert Known(m, lastseen, false, q);
    }
  }

  /** No goal position in [lo, hi). */
  ghost predicate NoGoalIn(n: Cnfa, h: Trail, start: nat, lo: nat, hi: nat) {
    hi <= lo || (!HasAt(n, h, start, hi - 1, true) && NoGoalIn(n, h, start, lo, hi - 1))
  }

  lemma {:induction false} NoGoalAt(n: Cnfa, h: Trail, start: nat, lo: nat, hi: nat, q: nat)
    requires NoGoalIn(n, h, start, lo, hi) && lo <= q < hi
    ensures !HasAt(n, h, start, q, true)
    decreases hi
  {
    if q < hi - 1 {
      NoGoalAt(n, h, start, lo, hi - 1, q);
    }
  }

  lemma AtFlag(d: Dfa, css: nat, cp: nat, start: nat, h: Trail)
    requires At(d, css, cp, start, h)
    ensures d.Valid() && d.flags[css].poststate == HasAt(d.cnfa, h, start, cp, true)
    ensures d.nssused > 0 && d.flags[0].noprogress && d.lastseen[0] >= start
  {
    Unseal(d, css, cp, start, h);
    assert EntryOk(d.cnfa, css, d.states[..][css], d.flags[..][css]);
    assert EntryOk(d.cnfa, 0, d.states[..][0], d.flags[..][0]);
    assert d.cnfa.states[d.cnfa.pre].noprogress;
  }

  /** `shortest` stands at position cp, with no goal in [realmin, cp). */
  ghost predicate ShortAt(d: Dfa, css: nat, cp: nat, start: nat, realmin: nat, h: Trail)
    reads d, d.states, d.flags, d.outs, d.ins, d.inchain, d.lastseen
  {
    && At(d, css, cp, start, h) && Follows(d.J(), start, h)
    && NoGoalIn(d.cnfa, h, start, realmin, cp)
  }

  /** A round of `shortest`, from a position that is no goal or comes too early. */
  method AdvanceShort(d: Dfa, css: nat, cp: nat, start: nat, ghost realmin: nat, ghost h: Trail) returns (ss: int)
    requires ShortAt(d, css, cp, start, realmin, h) && cp < |d.v.text| && (d.flags[css].poststate ==> cp < realmin)
    modifies d`work, d`nssused, d`search, d`chain, d`lastpost, d`lastnopr, d.states, d.flags, d.ins, d.outs, d.inchain, d.lastseen
    ensures ss == NIL ==> ShortAt(d, css, cp, start, realmin, h) && h(cp + 1) == {} && (d.flags[css].poststate ==> cp < realmin)
    ensures ss != NIL ==> 0 <= ss && ShortAt(d, ss, cp + 1, start, realmin, h)
    decreases d.lim, 10
  {
    AtFlag(d, css, cp, start, h);
    ss := Advance(d, css, cp, start, h);
    if ss == NIL {
      AtFlag(d, css, cp, start, h);
    }
  }

  /** The main loop of `shortest`. */
  method RunShort(d: Dfa, css0: nat, start: nat, realmin: nat, realmax: nat, ghost h: Trail)
    returns (css: nat, cp: nat, dead: bool)
    requires ShortAt(d, css0, start, start, realmin, h) && start <= realmin && start <= realmax <= |d.v.text|
    requires !d.flags[css0].poststate
    modifies d`work, d`nssused, d`search, d`chain, d`lastpost, d`lastnopr, d.states, d.flags, d.ins, d.outs, d.inchain, d.lastseen
    ensures start <= cp <= realmax && ShortAt(d, css, cp, start, realmin, h)
    ensures if dead then cp < realmax && h(cp + 1) == {} && (d.flags[css].poststate ==> cp < realmin)
            else cp == realmax || (d.flags[css].poststate && cp >= realmin)
    decreases d.lim, 11
  {
    css, cp, dead := css0, start, false;
    while cp < realmax
      invariant start <= cp <= realmax && ShortAt(d, css, cp, start, realmin, h)
      invariant d.flags[css].poststate ==> cp < realmin
    {
      var ss := AdvanceShort(d, css, cp, start, realmin, h);
      if ss == NIL {
        dead := true;
        return;
      }
      cp, css := cp + 1, ss;
      if d.flags[css].poststate && cp >= realmin {
        return;
      }
    }
  }

  /** No match ends in [min, hi] if no goal was seen up to cp. */
  lemma NoneShort(j: Job, lim: nat, h: Trail, start: nat, min: nat, hi: int, cp: nat)
    requires j.Wf(lim) && start <= min <= |j.v.text| && start <= cp <= |j.v.text| && Follows(j, start, h)
    requires NoGoalIn(j.n, h, start, if min == |j.v.text| then min else min + 1, cp)
    requires HasAt(j.n, h, start, cp, true) ==> cp <= min
    requires hi < cp || (cp < |j.v.text| && h(cp + 1) == {})
    ensures forall e: nat | min <= e <= hi :: !j.Matches(start, e)
  {
    forall e: nat | min <= e <= hi
      ensures !j.Matches(start, e)
    {
      if e >= cp {
        DeadEnd(j, lim, h, start, cp + 1, e);
      } else {
        GoalAhead(j, lim, h, start, e);
        if e + 1 < cp {
          NoGoalAt(j.n, h, start, min + 1, cp, e + 1);
        }
      }
    }
  }

  lemma GoalBehind(j: Job, lim: nat, h: Trail, start: nat, min: nat, max: nat, cp: nat)
    requires j.Wf(lim) && start <= min < cp <= |j.v.text| && min <= max && cp <= max + 1 && Follows(j, start, h)
    requires NoGoalIn(j.n, h, start, min + 1, cp) && HasAt(j.n, h, start, cp, true)
    ensures IsShortest(j, start, min, max, cp - 1)
  {
    GoalAhead(j, lim, h, start, cp - 1);
    forall e: nat | min <= e < cp - 1
      ensures !j.Matches(start, e)
    {
      GoalAhead(j, lim, h, start, e);
      NoGoalAt(j.n, h, start, min + 1, cp, e + 1);
    }
  }

  /** How `shortest` reads its result off the position cp it stopped at. */
  method FinishShort(d: Dfa, css: nat, cp: nat, start: nat, min: nat, max: nat, ghost h: Trail) returns (r: int)
    requires start <= min <= max <= |d.v.text|
    requires ShortAt(d, css, cp, start, if min == |d.v.text| then min else min + 1, h)
    requires cp <= if max == |d.v.text| then max else max + 1
    requires cp == (if max == |d.v.text| then max else max + 1)
      || (d.flags[css].poststate && cp >= if min == |d.v.text| then min else min + 1)
    modifies d`work, d`nssused, d`search, d`chain, d`lastpost, d`lastnopr, d.states, d.flags, d.ins, d.outs, d.inchain, d.lastseen
    ensures d.Valid()
    ensures IsShortest(d.J(), start, min, max, r)
    ensures r != NIL ==> cp == (if r < |d.v.text| then r + 1 else r)
    decreases d.lim, 10
  {
    AtFlag(d, css, cp, start, h);
    if d.flags[css].poststate && cp > min {
      GoalBehind(d.J(), d.lim, h, start, min, max, cp);
      r := cp - 1;
    } else if cp == |d.v.text| && max == |d.v.text| {
      r := FinishEos(d, css, start, min, h);
    } else {
      NoneShort(d.J(), d.lim, h, start, min, max, cp);
      r := NIL;
    }
  }

  method FinishEos(d: Dfa, css: nat, start: nat, min: nat, ghost h: Trail) returns (r: int)
    requires start <= min <= |d.v.text|
    requires ShortAt(d, css, |d.v.text|, start, if min == |d.v.text| then min else min + 1, h)
    requires HasAt(d.cnfa, h, start, |d.v.text|, true) ==> |d.v.text| <= min
    modifies d`work, d`nssused, d`search, d`chain, d`lastpost, d`lastnopr, d.states, d.flags, d.ins, d.outs, d.inchain, d.lastseen
    ensures d.Valid()
    ensures IsShortest(d.J(), start, min, |d.v.text|, r)
    ensures r != NIL ==> r == |d.v.text|
    decreases d.lim, 9, 1
  {
    AtFlag(d, css, |d.v.text|, start, h);
    NoneShort(d.J(), d.lim, h, start, min, |d.v.text| - 1, |d.v.text|);
    var eos := EosStep(d, css, start, false, h);
    r := if eos then |d.v.text| else NIL;
  }

  /** `shortest`: the end of the shortest match from `start` that ends in [min, max], NIL if there is none; and the
      last no-progress position on the way. */
  method Shortest(d: Dfa, start: nat, min: nat, max: nat) returns (r: int, cold: int)
    requires d.Valid() && start <= min <= max <= |d.v.text|
    modifies d`work, d`nssused, d`search, d`chain, d`lastpost, d`lastnopr, d.states, d.flags, d.ins, d.outs, d.inchain, d.lastseen
    ensures d.Valid()
    ensures IsShortest(d.J(), start, min, max, r)
    ensures r != NIL ==> IsCold(d.cnfa, TrailOf(d.J(), start), start, if r < |d.v.text| then r + 1 else r, cold)
    decreases d.lim, 13
  {
    ghost var h := TrailOf(d.J(), start);
    TrailFollows(d.J(), start);
    var css := Startup(d, start, h);
    if css == NIL {
      NothingFrom(d.J(), d.lim, h, start, max);
      return NIL, NIL;
    }
    r, cold := ShortestFrom(d, css, start, min, max, h);
  }

  /** Main loop and shutdown of `shortest`. */
  method ShortestFrom(d: Dfa, css0: nat, start: nat, min: nat, max: nat, ghost h: Trail) returns (r: int, cold: int)
    requires At(d, css0, start, start, h) && start <= min <= max <= |d.v.text| && Follows(d.J(), start, h)
    requires !HasAt(d.cnfa, h, start, start, true)
    modifies d`work, d`nssused, d`search, d`chain, d`lastpost, d`lastnopr, d.states, d.flags, d.ins, d.outs, d.inchain, d.lastseen
    ensures d.Valid()
    ensures IsShortest(d.J(), start, min, max, r)
    ensures r != NIL ==> IsCold(d.cnfa, h, start, if r < |d.v.text| then r + 1 else r, cold)
    decreases d.lim, 12
  {
    var n := |d.v.text|;
    AtFlag(d, css0, start, start, h);
    var css, cp, dead := RunShort(d, css0, start, if min == n then min else min + 1, if max == n then max else max + 1, h);
    if dead {
      AtFlag(d, css, cp, start, h);
      NoneShort(d.J(), d.lim, h, start, min, max, cp);
      return NIL, NIL;
    }
    cold := ColdAt(d, css, cp, start, h);
    r := FinishShort(d, css, cp, start, min, max, h);
  }

  method ColdAt(d: Dfa, css: nat, cp: nat, start: nat, ghost h: Trail) returns (cold: int)
    requires At(d, css, cp, start, h)
    ensures IsCold(d.cnfa, h, start, cp, cold)
  {
    Unseal(d, css, cp, start, h);
    AtFlag(d, css, cp, start, h);
    ToldScan(d.cnfa, h, d.Contents(), d.lastseen[..], start, cp + 1, false);
    cold := LastCold(d, start, cp, h);
  }
}
