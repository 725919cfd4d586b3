/** The in-chain surgery of `getvacant` and `miss` (rege_dfa.c). */
module DfaChains {
  import opened Dfas

  // ----- emptying an entry's own in-chain

  ghost predicate InsCleared(used: nat, ncolors: nat, outs: seq<seq<int>>, inchain: seq<seq<Arcp>>, s: int,
                             outs': seq<seq<int>>, inchain': seq<seq<Arcp>>)
    requires Rows(used, ncolors, outs, inchain) && Rows(used, ncolors, outs', inchain')
  {
    forall e, c | 0 <= e < used && 0 <= c < ncolors ::
      if outs[e][c] == s then outs'[e][c] == NIL
      else outs'[e][c] == outs[e][c] && inchain'[e][c] == inchain[e][c]
  }

  lemma InsClearedOk(used: nat, ncolors: nat, outs: seq<seq<int>>, ins: seq<Arcp>, inchain: seq<seq<Arcp>>,
                     chain: seq<seq<Arcp>>, s: nat, outs': seq<seq<int>>, ins': seq<Arcp>, inchain': seq<seq<Arcp>>)
    requires ChainsOk(used, ncolors, outs, ins, inchain, chain) && s < used
    requires Rows(used, ncolors, outs', inchain') && |outs'| == |outs|
    requires InsCleared(used, ncolors, outs, inchain, s, outs', inchain')
    requires ins'[..] == ins[s := Arcp(NIL, ins[s].co)]
    ensures ChainsOk(used, ncolors, outs', ins', inchain', chain[s := []])
  {
    var chain' := chain[s := []];
    forall p | 0 <= p < used
      ensures ChainOk(used, ncolors, outs', inchain', p, ins'[p], chain'[p])
    {
      assert ChainOk(used, ncolors, outs, inchain, p, ins[p], chain[p]);
      if p != s {
        forall k: nat | k < |chain[p]|
          ensures Link(used, ncolors, outs', inchain', p, chain[p], k)
        {
          assert Link(used, ncolors, outs, inchain, p, chain[p], k);
        }
      }
    }
    forall e, c | 0 <= e < used && 0 <= c < ncolors
      ensures Listed(used, outs', chain', e, c)
    {
      assert Listed(used, outs, chain, e, c);
    }
  }

  /** Take outarc (p, co) away; what followed it in its chain is returned. */
  method Zap(d: Dfa, p: nat, co: nat) returns (next: Arcp)
    requires p < d.outs.Length && p < d.inchain.Length && co < |d.outs[p]| && co < |d.inchain[p]|
    modifies d.outs, d.inchain
    ensures next == old(d.inchain[p][co])
    ensures d.outs[..] == old(d.outs[..])[p := old(d.outs[p])[co := NIL]]
    ensures d.inchain[..] == old(d.inchain[..])[p := old(d.inchain[p])[co := Arcp(NIL, next.co)]]
  {
    d.outs[p] := d.outs[p][co := NIL];
    next := d.inchain[p][co];
    d.inchain[p] := d.inchain[p][co := Arcp(NIL, next.co)];
  }

  /** The chain is zapped as far as its first k elements. */
  ghost predicate Zapped(used: nat, ncolors: nat, outs0: seq<seq<int>>, inchain0: seq<seq<Arcp>>, gone: set<Arcp>,
                         outs: seq<seq<int>>, inchain: seq<seq<Arcp>>)
    requires Rows(used, ncolors, outs0, inchain0)
  {
    && Rows(used, ncolors, outs, inchain) && |outs| == |outs0|
    && forall e, c | 0 <= e < used && 0 <= c < ncolors ::
         if Arcp(e, c) in gone then outs[e][c] == NIL
         else outs[e][c] == outs0[e][c] && inchain[e][c] == inchain0[e][c]
  }

  lemma ZapStep(used: nat, ncolors: nat, outs0: seq<seq<int>>, inchain0: seq<seq<Arcp>>, gone: set<Arcp>,
                outs: seq<seq<int>>, inchain: seq<seq<Arcp>>, p: nat, co: nat, x: Arcp)
    requires Rows(used, ncolors, outs0, inchain0)
    requires Zapped(used, ncolors, outs0, inchain0, gone, outs, inchain) && p < used && co < ncolors
    ensures Zapped(used, ncolors, outs0, inchain0, gone + {Arcp(p, co)},
                   outs[p := outs[p][co := NIL]], inchain[p := inchain[p][co := x]])
  {}

  lemma NoNils(used: nat, ncolors: nat, outs: seq<seq<int>>, inchain: seq<seq<Arcp>>, p: int, head: Arcp, ch: seq<Arcp>)
    requires Rows(used, ncolors, outs, inchain) && ChainOk(used, ncolors, outs, inchain, p, head, ch)
    ensures forall k | 0 <= k < |ch| :: ch[k].ss != NIL
  {
    forall k | 0 <= k < |ch|
      ensures ch[k].ss != NIL
    {
      assert Link(used, ncolors, outs, inchain, p, ch, k);
    }
  }

  /** All arcs into entry s are taken away, one by one along its in-chain. */
  method ClearInarcs(d: Dfa, s: nat)
    requires d.Shape() && d.Chains() && s < d.nssused
    modifies d`chain, d.outs, d.ins, d.inchain
    ensures d.Shape() && d.Chains()
    ensures d.chain[s] == []
    ensures forall e | 0 <= e < d.nssused :: |old(d.outs[..])[e]| == d.cnfa.ncolors
    ensures forall e, c | 0 <= e < d.nssused && 0 <= c < d.cnfa.ncolors ::
      d.outs[e][c] == (if old(d.outs[..])[e][c] == s then NIL else old(d.outs[..])[e][c])
  {
    ghost var outs0, ins0, inchain0 := d.outs[..], d.ins[..], d.inchain[..];
    ghost var ch := d.chain[s];
    assert ChainOk(d.nssused, d.cnfa.ncolors, outs0, inchain0, s, ins0[s], ch);
    NoNils(d.nssused, d.cnfa.ncolors, outs0, inchain0, s, ins0[s], ch);
    ghost var k, zapped: set<Arcp> := 0, {};
    var ap := d.ins[s];
    while ap.ss != NIL
      invariant 0 <= k <= |ch| && Points(ap, ch, k)
      invariant forall i | 0 <= i < |ch| :: ch[i] in zapped <==> i < k
      invariant forall a | a in zapped :: a in ch
      invariant Zapped(d.nssused, d.cnfa.ncolors, outs0, inchain0, zapped, d.outs[..], d.inchain[..])
      decreases |ch| - k
      modifies d.outs, d.inchain
    {
      assert Link(d.nssused, d.cnfa.ncolors, outs0, inchain0, s, ch, k);
      ZapStep(d.nssused, d.cnfa.ncolors, outs0, inchain0, zapped, d.outs[..], d.inchain[..], ap.ss, ap.co, Arcp(NIL, d.inchain[ap.ss][ap.co].co));
      k, zapped := k + 1, zapped + {ap};
      ap := Zap(d, ap.ss, ap.co);
    }
    d.ins[s] := Arcp(NIL, d.ins[s].co);
    d.chain := d.chain[s := []];
    forall e, c | 0 <= e < d.nssused && 0 <= c < d.cnfa.ncolors
      ensures Arcp(e, c) in zapped <==> outs0[e][c] == s
    {
      assert Listed(d.nssused, outs0, old(d.chain), e, c);
      if Arcp(e, c) in zapped {
        var m: nat :| m < |ch| && ch[m] == Arcp(e, c);
        assert Link(d.nssused, d.cnfa.ncolors, outs0, inchain0, s, ch, m);
      }
    }
    InsClearedOk(d.nssused, d.cnfa.ncolors, outs0, ins0, inchain0, old(d.chain), s, d.outs[..], d.ins[..], d.inchain[..]);
  }

  // ----- taking one outarc off the in-chain of the entry it leads to

  /** The chain without its element k. */
  ghost function Without(ch: seq<Arcp>, k: nat): seq<Arcp>
    requires k < |ch|
  {
    seq(|ch| - 1, m requires 0 <= m < |ch| - 1 => if m < k then ch[m] else ch[m + 1])
  }

  /** The outarc (s, i) is gone, and what followed it in its chain now follows `prev`. */
  ghost predicate Unlinked(used: nat, ncolors: nat, outs: seq<seq<int>>, inchain: seq<seq<Arcp>>, s: nat, i: nat,
                           prev: Arcp, outs': seq<seq<int>>, inchain': seq<seq<Arcp>>)
    requires Rows(used, ncolors, outs, inchain) && s < used && i < ncolors
  {
    && Rows(used, ncolors, outs', inchain') && |outs'| == |outs|
    && forall e, c | 0 <= e < used && 0 <= c < ncolors ::
         if e == s && c == i then outs'[e][c] == NIL
         else (outs'[e][c] == outs[e][c]
           && inchain'[e][c] == (if Arcp(e, c) == prev then inchain[s][i] else inchain[e][c]))
  }

  lemma UnlinkedChain(used: nat, ncolors: nat, outs: seq<seq<int>>, head: Arcp, inchain: seq<seq<Arcp>>,
                      ch: seq<Arcp>, s: nat, i: nat, k: nat, prev: Arcp, outs': seq<seq<int>>, inchain': seq<seq<Arcp>>)
    requires Rows(used, ncolors, outs, inchain) && s < used && i < ncolors
    requires ChainOk(used, ncolors, outs, inchain, outs[s][i], head, ch)
    requires k < |ch| && ch[k] == Arcp(s, i)
    requires if k == 0 then prev.ss == NIL else prev == ch[k - 1] && prev.ss != NIL
    requires Unlinked(used, ncolors, outs, inchain, s, i, prev, outs', inchain')
    ensures ChainOk(used, ncolors, outs', inchain', outs[s][i], if k == 0 then inchain[s][i] else head, Without(ch, k))
  {
    var ch' := Without(ch, k);
    assert Link(used, ncolors, outs, inchain, outs[s][i], ch, k);
    forall m: nat | m < |ch'|
      ensures Link(used, ncolors, outs', inchain', outs[s][i], ch', m)
    {
      var m0 := if m < k then m else m + 1;
      assert Link(used, ncolors, outs, inchain, outs[s][i], ch, m0);
    }
  }

  lemma UnlinkedOk(used: nat, ncolors: nat, outs: seq<seq<int>>, ins: seq<Arcp>, inchain: seq<seq<Arcp>>,
                   chain: seq<seq<Arcp>>, s: nat, i: nat, p: nat, k: nat, prev: Arcp,
                   outs': seq<seq<int>>, ins': seq<Arcp>, inchain': seq<seq<Arcp>>)
    requires ChainsOk(used, ncolors, outs, ins, inchain, chain)
    requires s < used && i < ncolors && p < used && outs[s][i] == p
    requires k < |chain[p]| && chain[p][k] == Arcp(s, i)
    requires if k == 0 then prev.ss == NIL else prev == chain[p][k - 1] && prev.ss != NIL
    requires Unlinked(used, ncolors, outs, inchain, s, i, prev, outs', inchain')
    requires ins' == if k == 0 then ins[p := inchain[s][i]] else ins
    ensures ChainsOk(used, ncolors, outs', ins', inchain', chain[p := Without(chain[p], k)])
  {
    var chain' := chain[p := Without(chain[p], k)];
    forall q | 0 <= q < used
      ensures ChainOk(used, ncolors, outs', inchain', q, ins'[q], chain'[q])
    {
      assert ChainOk(used, ncolors, outs, inchain, q, ins[q], chain[q]);
      assert ChainOk(used, ncolors, outs, inchain, p, ins[p], chain[p]);
      if q == p {
        UnlinkedChain(used, ncolors, outs, ins[p], inchain, chain[p], s, i, k, prev, outs', inchain');
      } else {
        forall m: nat | m < |chain[q]|
          ensures Link(used, ncolors, outs', inchain', q, chain[q], m)
        {
          assert Link(used, ncolors, outs, inchain, q, chain[q], m);
          assert k > 0 ==> Link(used, ncolors, outs, inchain, p, chain[p], k - 1);
        }
      }
    }
    forall e, c | 0 <= e < used && 0 <= c < ncolors
      ensures Listed(used, outs', chain', e, c)
    {
      assert Listed(used, outs, chain, e, c);
      if outs[e][c] == p && Arcp(e, c) != Arcp(s, i) {
        var m :| 0 <= m < |chain[p]| && chain[p][m] == Arcp(e, c);
        assert chain'[p][if m < k then m else m - 1] == Arcp(e, c);
      }
    }
  }

  /** Find the outarc (s, i) on the in-chain of the entry p it leads to; `prev` is the chain element before it, if
      any. */
  method FindLink(d: Dfa, p: nat, s: nat, i: nat) returns (prev: Arcp, ghost k: nat)
    requires d.Shape() && d.Chains() && p < d.nssused && s < d.nssused && i < d.cnfa.ncolors
    requires d.outs[s][i] == p
    ensures k < |d.chain[p]| && d.chain[p][k] == Arcp(s, i)
    ensures if k == 0 then prev.ss == NIL else prev == d.chain[p][k - 1] && 0 <= prev.ss < d.nssused && prev.co < d.cnfa.ncolors
  {
    assert Listed(d.nssused, d.outs[..], d.chain, s, i);
    ghost var ch := d.chain[p];
    assert ChainOk(d.nssused, d.cnfa.ncolors, d.outs[..], d.inchain[..], p, d.ins[p], ch);
    ghost var goal :| 0 <= goal < |ch| && ch[goal] == Arcp(s, i);
    prev, k := Arcp(NIL, 0), 0;
    var ap := d.ins[p];
    while ap != Arcp(s, i)
      invariant k <= goal && ap == ch[k]
      invariant if k == 0 then prev.ss == NIL
                else prev == ch[k - 1] && 0 <= prev.ss < d.nssused && prev.co < d.cnfa.ncolors
      decreases goal - k
    {
      assert Link(d.nssused, d.cnfa.ncolors, d.outs[..], d.inchain[..], p, ch, k);
      prev := ap;
      ap := d.inchain[ap.ss][ap.co];
      k := k + 1;
    }
  }

  /** Every other outarc is as it was. */
  ghost predicate OthersKept(used: nat, ncolors: nat, outs0: seq<seq<int>>, outs: seq<seq<int>>, s: nat, i: nat) {
    && used <= |outs0| && used <= |outs|
    && forall e, c | 0 <= e < used && 0 <= c < ncolors ::
         && c < |outs0[e]| && c < |outs[e]|
         && outs[e][c] == if e == s && c < i then NIL else outs0[e][c]
  }

  method ClearOutarc(d: Dfa, s: nat, i: nat)
    requires d.Shape() && d.Chains() && s < d.nssused && i < d.cnfa.ncolors && d.outs[s][i] != NIL
    modifies d`chain, d.outs, d.ins, d.inchain
    ensures d.Shape() && d.Chains()
    ensures d.outs[..] == old(d.outs[..])[s := old(d.outs[s])[i := NIL]]
  {
    assert Listed(d.nssused, d.outs[..], d.chain, s, i);
    var p := d.outs[s][i];
    ghost var outs0, ins0, inchain0 := d.outs[..], d.ins[..], d.inchain[..];
    var prev, k := FindLink(d, p, s, i);
    if prev.ss == NIL {
      d.ins[p] := d.inchain[s][i];
    } else {
      d.inchain[prev.ss] := d.inchain[prev.ss][prev.co := d.inchain[s][i]];
    }
    var next := Zap(d, s, i);
    UnlinkedOk(d.nssused, d.cnfa.ncolors, outs0, ins0, inchain0, d.chain, s, i, p, k, prev,
               d.outs[..], d.ins[..], d.inchain[..]);
    d.chain := d.chain[p := Without(d.chain[p], k)];
  }

  method ClearOutarcs(d: Dfa, s: nat)
    requires d.Shape() && d.Chains() && s < d.nssused
    modifies d`chain, d.outs, d.ins, d.inchain
    ensures d.Shape() && d.Chains()
    ensures OthersKept(d.nssused, d.cnfa.ncolors, old(d.outs[..]), d.outs[..], s, d.cnfa.ncolors)
  {
    for i := 0 to d.cnfa.ncolors
      invariant d.Shape() && d.Chains()
      invariant OthersKept(d.nssused, d.cnfa.ncolors, old(d.outs[..]), d.outs[..], s, i)
      modifies d`chain, d.outs, d.ins, d.inchain
    {
      if d.outs[s][i] != NIL {
        ClearOutarc(d, s, i);
      }
    }
  }

  // ----- memoising a transition

  lemma LinkedOk(used: nat, ncolors: nat, outs: seq<seq<int>>, ins: seq<Arcp>, inchain: seq<seq<Arcp>>,
                 chain: seq<seq<Arcp>>, s: nat, c: nat, p: nat)
    requires ChainsOk(used, ncolors, outs, ins, inchain, chain)
    requires s < used && c < ncolors && p < used && outs[s][c] == NIL
    ensures ChainsOk(used, ncolors, outs[s := outs[s][c := p]], ins[p := Arcp(s, c)],
                     inchain[s := inchain[s][c := ins[p]]], chain[p := [Arcp(s, c)] + chain[p]])
  {
    var outs', ins' := outs[s := outs[s][c := p]], ins[p := Arcp(s, c)];
    var inchain', chain' := inchain[s := inchain[s][c := ins[p]]], chain[p := [Arcp(s, c)] + chain[p]];
    forall q | 0 <= q < used
      ensures ChainOk(used, ncolors, outs', inchain', q, ins'[q], chain'[q])
    {
      assert ChainOk(used, ncolors, outs, inchain, q, ins[q], chain[q]);
      forall k: nat | k < |chain'[q]|
        ensures Link(used, ncolors, outs', inchain', q, chain'[q], k)
      {
        var k0 := if q == p then k - 1 else k;
        assert k0 >= 0 ==> Link(used, ncolors, outs, inchain, q, chain[q], k0);
      }
      forall k: nat | k < |chain[q]|
        ensures chain[q][k] != Arcp(s, c)
      {
        assert Link(used, ncolors, outs, inchain, q, chain[q], k);
      }
    }
    forall e, k | 0 <= e < used && 0 <= k < ncolors
      ensures Listed(used, outs', chain', e, k)
    {
      assert Listed(used, outs, chain, e, k);
    }
  }

  /** Record that color c leads from entry s to entry p. */
  method Memoise(d: Dfa, s: nat, c: nat, p: nat)
    requires d.Shape() && d.Chains() && s < d.nssused && c < d.cnfa.ncolors && p < d.nssused
    requires d.outs[s][c] == NIL
    modifies d`chain, d.outs, d.ins, d.inchain
    ensures d.Shape() && d.Chains()
    ensures d.outs[..] == old(d.outs[..])[s := old(d.outs[s])[c := p]]
  {
    LinkedOk(d.nssused, d.cnfa.ncolors, d.outs[..], d.ins[..], d.inchain[..], d.chain, s, c, p);
    ghost var outs', ins' := d.outs[..][s := d.outs[s][c := p]], d.ins[..][p := Arcp(s, c)];
    ghost var inchain' := d.inchain[..][s := d.inchain[s][c := d.ins[p]]];
    d.outs[s] := d.outs[s][c := p];
    d.inchain[s] := d.inchain[s][c := d.ins[p]];
    d.ins[p] := Arcp(s, c);
    d.chain := d.chain[p := [Arcp(s, c)] + d.chain[p]];
    assert d.outs[..] == outs' && d.ins[..] == ins' && d.inchain[..] == inchain';
  }
}
