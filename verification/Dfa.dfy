/** The lazy DFA's cache of state sets (rege_dfa.c): a fixed number of entries, memoised transitions threaded on
    in-chains, and replacement by age. */
module Dfas {
  import opened Cnfas

  /** The null pointer: no entry, no position. */
  const NIL := -1

  /** A position in the string, or NIL. */
  type Ptr = i: int | NIL <= i

  /** "Pointer" to an outarc: entry and color. */
  datatype Arcp = Arcp(ss: int, co: nat)

  datatype Flags = Flags(starter: bool, poststate: bool, locked: bool, noprogress: bool)

  type BitVector = seq<bool>

  function Bits(uv: BitVector): set<nat> {
    set n: nat | n < |uv| && uv[n]
  }

  /** `ap` denotes element k of the chain, or its end. */
  ghost predicate Points(ap: Arcp, ch: seq<Arcp>, k: nat) {
    if k < |ch| then ap == ch[k] else ap.ss == NIL
  }

  ghost predicate NoDup(ch: seq<Arcp>) {
    forall i, j | 0 <= i < j < |ch| :: ch[i] != ch[j]
  }

  /** The outarc and in-chain vectors have one slot per color. */
  ghost predicate Rows(used: nat, ncolors: nat, outs: seq<seq<int>>, inchain: seq<seq<Arcp>>) {
    && used <= |outs| == |inchain|
    && forall e | 0 <= e < used :: |outs[e]| == ncolors && |inchain[e]| == ncolors
  }

  /** The in-chain of entry p lists outarcs that lead to p, linked through `inchain`. */
  ghost predicate ChainOk(used: nat, ncolors: nat, outs: seq<seq<int>>, inchain: seq<seq<Arcp>>,
                          p: int, head: Arcp, ch: seq<Arcp>)
    requires Rows(used, ncolors, outs, inchain)
  {
    && Points(head, ch, 0) && NoDup(ch)
    && forall k: nat | k < |ch| :: Link(used, ncolors, outs, inchain, p, ch, k)
  }

  ghost predicate Link(used: nat, ncolors: nat, outs: seq<seq<int>>, inchain: seq<seq<Arcp>>,
                       p: int, ch: seq<Arcp>, k: nat)
    requires Rows(used, ncolors, outs, inchain) && k < |ch|
  {
    && 0 <= ch[k].ss < used && ch[k].co < ncolors
    && outs[ch[k].ss][ch[k].co] == p
    && Points(inchain[ch[k].ss][ch[k].co], ch, k + 1)
  }

  /** Each in-chain lists exactly the (entry, color) pairs that lead to its entry. */
  ghost predicate ChainsOk(used: nat, ncolors: nat, outs: seq<seq<int>>, ins: seq<Arcp>,
                           inchain: seq<seq<Arcp>>, chain: seq<seq<Arcp>>)
  {
    && Rows(used, ncolors, outs, inchain)
    && |ins| == |chain| == |outs|
    && (forall p | 0 <= p < used :: ChainOk(used, ncolors, outs, inchain, p, ins[p], chain[p]))
    && forall e, c | 0 <= e < used && 0 <= c < ncolors :: Listed(used, outs, chain, e, c)
  }

  ghost predicate Listed(used: nat, outs: seq<seq<int>>, chain: seq<seq<Arcp>>, e: nat, c: nat)
    requires e < |outs| && c < |outs[e]| && used <= |chain|
  {
    outs[e][c] == NIL || (0 <= outs[e][c] < used && Arcp(e, c) in chain[outs[e][c]])
  }

  /** No entry of this state set can have its transitions depend on the position. */
  ghost predicate LaconFree(n: Cnfa, S: set<nat>) {
    forall i, k | i in S && i < |n.states| && 0 <= k < |n.states[i].outs| :: n.states[i].outs[k].co <= n.ncolors
  }

  /** A memoised transition leads to the true successor set, wherever it is taken. */
  ghost predicate ArcOk(j: Job, S: set<nat>, c: nat, T: set<nat>) {
    T == j.Direct(S, c) && LaconFree(j.n, T)
  }

  ghost predicate ArcsOk(j: Job, used: nat, states: seq<BitVector>, outs: seq<seq<int>>)
    requires used <= |states| && used <= |outs|
    requires forall e | 0 <= e < used :: |outs[e]| == j.n.ncolors
  {
    forall e, c | 0 <= e < used && 0 <= c < j.n.ncolors && outs[e][c] != NIL ::
      0 <= outs[e][c] < used && ArcOk(j, Bits(states[e]), c, Bits(states[outs[e][c]]))
  }

  /** POSTSTATE and NOPROGRESS are functions of the state set; only entry 0 is the locked starter. */
  ghost predicate EntryOk(n: Cnfa, e: nat, uv: BitVector, f: Flags) {
    && |uv| == |n.states| && Bits(uv) != {} && InFamily(n, Bits(uv))
    && f.poststate == (n.post in Bits(uv))
    && f.noprogress == NoProgress(n, Bits(uv))
    && f.locked == f.starter == (e == 0)
    && (e == 0 ==> Bits(uv) == {n.pre})
  }

  /** The state sets that can occur in an NFA of at most three states. */
  ghost predicate InFamily(n: Cnfa, S: set<nat>) {
    |n.states| >= 4 ||
    if n.PreUnentered() then S == {n.pre} || n.pre !in S else n.pre in S || S == {n.post}
  }

  ghost predicate EntriesOk(n: Cnfa, used: nat, states: seq<BitVector>, flags: seq<Flags>)
    requires used <= |states| && used <= |flags|
  {
    && (forall e | 0 <= e < used :: EntryOk(n, e, states[e], flags[e]))
    && (forall e, f | 0 <= e < f < used :: states[e] != states[f])
  }

  datatype Memory = Memory(used: nat, states: seq<BitVector>, flags: seq<Flags>, lastpost: Ptr, lastnopr: Ptr)

  class Dfa {
    const v: Vars
    const cnfa: Cnfa
    ghost const la: (nat, nat) -> bool
    /** Bound on the lookahead constraints `cnfa` may use. */
    const lim: nat
    const nssets: nat
    var nssused: nat
    var search: nat
    var lastpost: Ptr
    var lastnopr: Ptr
    const states: array<BitVector>
    const flags: array<Flags>
    const lastseen: array<Ptr>
    const ins: array<Arcp>
    const outs: array<seq<int>>
    const inchain: array<seq<Arcp>>
    var work: BitVector
    /** The in-chains as sequences. */
    ghost var chain: seq<seq<Arcp>>

    ghost function J(): Job {
      Job(v, cnfa, la)
    }

    /** Sizes of the arrays. */
    ghost predicate Shape()
      reads this
    {
      && nssused <= nssets && search <= nssets
      && states.Length == flags.Length == lastseen.Length == nssets
      && ins.Length == outs.Length == inchain.Length == nssets
    }

    /** The fixed part: the matching problem and the cache size `newdfa` gives it. */
    ghost predicate Problem() {
      && nssets == 2 * |cnfa.states|
      && J().Wf(lim) && la == Oracle(v, lim) && lim <= |v.lacons| && WfLacons(v)
    }

    /** What the cache holds and remembers, apart from transitions and times. */
    ghost function Contents(): Memory
      reads this, states, flags
    {
      Memory(nssused, states[..], flags[..], lastpost, lastnopr)
    }

    ghost predicate Chains()
      requires Shape()
      reads this, outs, ins, inchain
    {
      ChainsOk(nssused, cnfa.ncolors, outs[..], ins[..], inchain[..], chain)
    }

    /** `newdfa`: an empty cache of two entries per NFA state. */
    constructor (v: Vars, cnfa: Cnfa, lim: nat)
      requires Job(v, cnfa, Oracle(v, lim)).Wf(lim) && lim <= |v.lacons| && WfLacons(v)
      ensures this.v == v && this.cnfa == cnfa && this.lim == lim && la == Oracle(v, lim)
      ensures Valid() && nssets == 2 * |cnfa.states| && nssused == 0 && lastpost == lastnopr == NIL
      ensures fresh(states) && fresh(flags) && fresh(lastseen) && fresh(ins) && fresh(outs) && fresh(inchain)
    {
      this.v, this.cnfa, this.la, this.lim := v, cnfa, Oracle(v, lim), lim;
      var nss := 2 * |cnfa.states|;
      nssets, nssused, search, lastpost, lastnopr := nss, 0, 0, NIL, NIL;
      states, flags, lastseen := new BitVector[nss], new Flags[nss], new Ptr[nss];
      ins, outs, inchain := new Arcp[nss], new seq<int>[nss], new seq<Arcp>[nss];
      work := [];
      chain := seq(nss, _ => []);
    }

    ghost predicate Valid()
      reads this, states, flags, outs, ins, inchain
    {
      && Shape() && Problem() && Chains()
      && ArcsOk(J(), nssused, states[..], outs[..])
      && EntriesOk(cnfa, nssused, states[..], flags[..])
    }
  }
}
