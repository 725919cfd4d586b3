/** Finding room for a new state set: `pickss` and `getvacant` (rege_dfa.c). */
module DfaCache {
  import opened Dfas
  import opened DfaChains

  /** Positions before this one are old enough for their entries to be replaced. */
  function Ancient(nssets: nat, cp: nat, start: nat): (a: int)
    ensures start <= cp ==> start <= a <= cp
  {
    if cp - start > nssets * 2 / 3 then cp - nssets * 2 / 3 else start
  }

  predicate Expendable(lastseen: Ptr, f: Flags, ancient: int) {
    (lastseen == NIL || lastseen < ancient) && !f.locked
  }

  /** What a match in progress keeps true of `lastseen`: it lies in [start, now], and no position belongs to two
      entries other than the starter. */
  ghost predicate Seen(used: nat, lastseen: seq<Ptr>, start: nat, now: int)
    requires used <= |lastseen|
  {
    && (forall e | 0 <= e < used :: lastseen[e] == NIL || start <= lastseen[e] <= now)
    && (forall e, f | 1 <= e < f < used :: lastseen[e] != lastseen[f] || lastseen[e] == NIL)
  }

  lemma {:induction false} DistinctInRange(s: seq<int>, lo: int, hi: int)
    requires forall i | 0 <= i < |s| :: lo <= s[i] <= hi
    requires forall i, k | 0 <= i < k < |s| :: s[i] != s[k]
    ensures |s| == 0 || |s| <= hi - lo + 1
    decreases hi - lo
  {
    if |s| > 0 {
      assert lo <= s[0] <= hi && s[0] in s;
      if hi in s {
        var m :| 0 <= m < |s| && s[m] == hi;
        var t := s[..m] + s[m + 1..];
        DistinctInRange(t, lo, hi - 1);
      } else if lo < hi {
        DistinctInRange(s, lo, hi - 1);
      }
    }
  }

  /** The pigeonhole argument behind `pickss`: a full cache of at least seven entries always holds one that is old
      enough, so "can't find victim" is never reached, whatever position `cp` the request is made for. */
  lemma VictimExists(nssets: nat, lastseen: seq<Ptr>, cp: nat, start: nat)
    requires nssets >= 7 && |lastseen| == nssets && start <= cp
    requires Seen(nssets, lastseen, start, cp)
    ensures exists e :: 1 <= e < nssets && (lastseen[e] == NIL || lastseen[e] < Ancient(nssets, cp, start))
  {
    var a := Ancient(nssets, cp, start);
    if forall e | 1 <= e < nssets :: lastseen[e] != NIL && lastseen[e] >= a {
      var s := seq(nssets - 1, i requires 0 <= i < nssets - 1 => lastseen[i + 1]);
      DistinctInRange(s, a, cp);
      assert false;
    }
  }

  /** Room for a new entry: an unused one, or an expendable one. */
  ghost predicate HasRoom(d: Dfa, cp: nat, start: nat)
    requires d.Shape()
    reads d, d.lastseen, d.flags
  {
    d.nssused < d.nssets
    || exists e :: 0 <= e < d.nssets && Expendable(d.lastseen[e], d.flags[e], Ancient(d.nssets, cp, start))
  }

  /** Scan entries lo..hi for an expendable one. */
  method ScanForVictim(d: Dfa, lo: nat, hi: nat, ancient: int) returns (s: int)
    requires d.Shape() && lo <= hi <= d.nssets
    ensures s == NIL ==> forall e | lo <= e < hi :: !Expendable(d.lastseen[e], d.flags[e], ancient)
    ensures s != NIL ==> lo <= s < hi && Expendable(d.lastseen[s], d.flags[s], ancient)
  {
    for ss := lo to hi
      invariant forall e | lo <= e < ss :: !Expendable(d.lastseen[e], d.flags[e], ancient)
    {
      if Expendable(d.lastseen[ss], d.flags[ss], ancient) {
        return ss;
      }
    }
    return NIL;
  }

  function NoOuts(ncolors: nat): seq<int> {
    seq(ncolors, _ => NIL)
  }

  lemma UnusedOk(used: nat, ncolors: nat, outs: seq<seq<int>>, ins: seq<Arcp>, inchain: seq<seq<Arcp>>,
                 chain: seq<seq<Arcp>>, outs': seq<seq<int>>, ins': seq<Arcp>, inchain': seq<seq<Arcp>>, x: Arcp)
    requires ChainsOk(used, ncolors, outs, ins, inchain, chain) && used < |outs|
    requires outs' == outs[used := NoOuts(ncolors)] && ins' == ins[used := x] && x.ss == NIL
    requires |inchain'| == |inchain| && |inchain'[used]| == ncolors
    requires forall e | 0 <= e < used :: inchain'[e] == inchain[e]
    ensures ChainsOk(used + 1, ncolors, outs', ins', inchain', chain[used := []])
  {
    var chain', n := chain[used := []], used + 1;
    forall p | 0 <= p < n
      ensures ChainOk(n, ncolors, outs', inchain', p, ins'[p], chain'[p])
    {
      if p < used {
        assert ChainOk(used, ncolors, outs, inchain, p, ins[p], chain[p]);
        forall k: nat | k < |chain[p]|
          ensures Link(n, ncolors, outs', inchain', p, chain[p], k)
        {
          assert Link(used, ncolors, outs, inchain, p, chain[p], k);
        }
      }
    }
    forall e, c | 0 <= e < n && 0 <= c < ncolors
      ensures Listed(n, outs', chain', e, c)
    {
      assert e < used ==> Listed(used, outs, chain, e, c);
    }
  }

  /** Pick the entry to be used next: an unused one while there are any, otherwise the first expendable one from where
      the last search ended. */
  method PickSs(d: Dfa, cp: nat, start: nat) returns (s: nat)
    requires d.Shape() && d.Chains() && HasRoom(d, cp, start)
    modifies d`nssused, d`search, d`chain, d.flags, d.ins, d.outs, d.inchain
    ensures d.Shape() && d.Chains() && s < d.nssused
    ensures if old(d.nssused) < d.nssets then
        && s == old(d.nssused) && d.nssused == s + 1
        && d.outs[..] == old(d.outs[..])[s := NoOuts(d.cnfa.ncolors)]
        && d.flags[..] == old(d.flags[..])[s := Flags(false, false, false, false)]
      else
        && d.nssused == old(d.nssused) && d.outs[..] == old(d.outs[..]) && d.flags[..] == old(d.flags[..])
        && Expendable(d.lastseen[s], d.flags[s], Ancient(d.nssets, cp, start))
  {
    if d.nssused < d.nssets {
      s := d.nssused;
      ghost var outs0, ins0, inchain0, chain0 := d.outs[..], d.ins[..], d.inchain[..], d.chain;
      d.nssused := d.nssused + 1;
      d.flags[s] := Flags(false, false, false, false);
      d.ins[s] := Arcp(NIL, 0);
      d.outs[s] := NoOuts(d.cnfa.ncolors);
      d.inchain[s] := seq(d.cnfa.ncolors, _ => Arcp(NIL, 0));
      d.chain := d.chain[s := []];
      UnusedOk(s, d.cnfa.ncolors, outs0, ins0, inchain0, chain0, d.outs[..], d.ins[..], d.inchain[..], Arcp(NIL, 0));
      return;
    }
    var ancient := Ancient(d.nssets, cp, start);
    var v := ScanForVictim(d, d.search, d.nssets, ancient);
    if v == NIL {
      v := ScanForVictim(d, 0, d.search, ancient);
    }
    assert v != NIL;   // the source's "can't find victim" exit is unreachable
    d.search := v + 1;
    s := v;
  }

  function Later(a: Ptr, b: Ptr): Ptr {
    if a < b then b else a
  }

  /** The entry s has been emptied: all its outarcs, and all outarcs leading to it. */
  ghost predicate Emptied(used: nat, ncolors: nat, outs0: seq<seq<int>>, outs: seq<seq<int>>, s: nat) {
    && used <= |outs0| && used <= |outs|
    && forall e, c | 0 <= e < used && 0 <= c < ncolors ::
         && c < |outs0[e]| && c < |outs[e]|
         && outs[e][c] == (if e == s || outs0[e][c] == s then NIL else outs0[e][c])
  }

  /** Get a vacant entry: outarcs and inarcs cleared, and what it said about the latest goal and no-progress positions
      remembered. */
  method GetVacant(d: Dfa, cp: nat, start: nat) returns (s: nat)
    requires d.Shape() && d.Chains() && HasRoom(d, cp, start)
    modifies d`nssused, d`search, d`chain, d`lastpost, d`lastnopr, d.flags, d.ins, d.outs, d.inchain
    ensures d.Shape() && d.Chains() && s < d.nssused
    ensures forall c | 0 <= c < d.cnfa.ncolors :: d.outs[s][c] == NIL
    ensures Emptied(old(d.nssused), d.cnfa.ncolors, old(d.outs[..]), d.outs[..], s)
    ensures if old(d.nssused) < d.nssets then
        && s == old(d.nssused) && d.nssused == s + 1
        && d.flags[..] == old(d.flags[..])[s := Flags(false, false, false, false)]
        && d.lastpost == old(d.lastpost) && d.lastnopr == old(d.lastnopr)
      else
        && d.nssused == old(d.nssused) && d.flags[..] == old(d.flags[..])
        && Expendable(d.lastseen[s], d.flags[s], Ancient(d.nssets, cp, start))
        && d.lastpost == (if d.flags[s].poststate then Later(old(d.lastpost), d.lastseen[s]) else old(d.lastpost))
        && d.lastnopr == (if d.flags[s].noprogress then Later(old(d.lastnopr), d.lastseen[s]) else old(d.lastnopr))
  {
    s := PickSs(d, cp, start);
    ghost var outs0 := d.outs[..];
    ClearInarcs(d, s);
    ClearOutarcs(d, s);
    if d.flags[s].poststate && d.lastseen[s] != d.lastpost
       && (d.lastpost == NIL || d.lastpost < d.lastseen[s]) {
      d.lastpost := d.lastseen[s];
    }
    if d.flags[s].noprogress && d.lastseen[s] != d.lastnopr
       && (d.lastnopr == NIL || d.lastnopr < d.lastseen[s]) {
      d.lastnopr := d.lastseen[s];
    }
  }
}
