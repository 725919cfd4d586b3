/** What a running match attempt knows (rege_dfa.c): when each cached state set was last seen, and the latest goal and
    no-progress positions even after evictions. */
module DfaTimes {
  import opened Cnfas
  import opened Dfas
  import opened DfaCache

  /** The state set at each position of one attempt. */
  type Trail = nat -> set<nat>

  /** h is the trail of the attempt that starts at `start`. */
  ghost predicate Follows(j: Job, start: nat, h: Trail) {
    && |j.n.bos| == 2
    && forall q {:trigger j.States(start, q)} | start <= q <= |j.v.text| :: h(q) == j.States(start, q)
  }

  ghost function TrailOf(j: Job, start: nat): Trail
    requires |j.n.bos| == 2
  {
    (q: nat) => if start <= q <= |j.v.text| then j.States(start, q) else {}
  }

  lemma TrailFollows(j: Job, start: nat)
    requires |j.n.bos| == 2
    ensures Follows(j, start, TrailOf(j, start))
  {}

  /** What one step leaves alone: every entry but r, and the remembered positions except for what the evicted contents
      of r said. */
  ghost predicate Kept(m0: Memory, m: Memory, lastseen: seq<Ptr>, r: nat) {
    && m.used == (if r == m0.used then r + 1 else m0.used)
    && m.used <= |m.states| == |m.flags| == |m0.states| == |m0.flags| == |lastseen|
    && (forall e | 0 <= e < m0.used && e != r :: m.states[e] == m0.states[e] && m.flags[e] == m0.flags[e])
    && if r < m0.used && m.states[r] != m0.states[r] then
         && r != 0
         && m.lastpost == (if m0.flags[r].poststate then Later(m0.lastpost, lastseen[r]) else m0.lastpost)
         && m.lastnopr == (if m0.flags[r].noprogress then Later(m0.lastnopr, lastseen[r]) else m0.lastnopr)
       else
         && m.lastpost == m0.lastpost && m.lastnopr == m0.lastnopr
         && (r < m0.used ==> m.flags[r] == m0.flags[r])
  }

  lemma BitsInjective(uv: BitVector, vv: BitVector)
    requires |uv| == |vv| && Bits(uv) == Bits(vv)
    ensures uv == vv
  {
    forall n | 0 <= n < |uv|
      ensures uv[n] == vv[n]
    {
      assert uv[n] <==> n in Bits(uv);
      assert vv[n] <==> n in Bits(vv);
    }
  }

  // ----- where goal and no-progress sets were last seen

  /** The two kinds of state set whose last position matters: with the post state (`goal`), and without progress. */
  ghost predicate Has(n: Cnfa, S: set<nat>, goal: bool) {
    if goal then n.post in S else S != {} && NoProgress(n, S)
  }

  predicate Flagged(f: Flags, goal: bool) {
    if goal then f.poststate else f.noprogress
  }

  function Last(m: Memory, goal: bool): Ptr {
    if goal then m.lastpost else m.lastnopr
  }

  /** Position q is not later than what the cache remembers. */
  ghost predicate Known(m: Memory, lastseen: seq<Ptr>, goal: bool, q: nat) {
    Last(m, goal) >= q ||
    exists e | 0 <= e < m.used && e < |m.flags| && e < |lastseen| :: Flagged(m.flags[e], goal) && lastseen[e] >= q
  }

  /** The state set at position q is of the given kind. */
  ghost predicate HasAt(n: Cnfa, h: Trail, start: nat, q: nat, goal: bool) {
    start <= q && Has(n, h(q), goal)
  }

  /** The remembered position is true, and together with the surviving entries not earlier than any position of its
      kind before `lim`. */
  ghost predicate LastOk(n: Cnfa, h: Trail, m: Memory, lastseen: seq<Ptr>, start: nat, lim: nat, goal: bool) {
    && (Last(m, goal) == NIL || (Last(m, goal) < lim && HasAt(n, h, start, Last(m, goal), goal)))
    && forall q: nat | q < lim && HasAt(n, h, start, q, goal) :: Known(m, lastseen, goal, q)
  }

  /** Entry e holds the state set of the position it was last seen at. */
  ghost predicate SeenAt(n: Cnfa, h: Trail, m: Memory, lastseen: seq<Ptr>, start: nat, lim: nat, e: nat)
    requires e < |m.states| && e < |lastseen|
  {
    || lastseen[e] == NIL || (e == 0 && lastseen[e] == start)
    || (start <= lastseen[e] < lim && Bits(m.states[e]) == h(lastseen[e]))
  }

  /** The state of a match attempt begun at `start` that has come to positions below `lim`. */
  ghost predicate Told(n: Cnfa, h: Trail, m: Memory, lastseen: seq<Ptr>, start: nat, lim: nat) {
    && m.used <= |m.states| == |m.flags| == |lastseen|
    && (m.used > 0 ==> lastseen[0] >= start)
    && (forall e | 0 <= e < m.used :: SeenAt(n, h, m, lastseen, start, lim, e))
    && LastOk(n, h, m, lastseen, start, lim, true)
    && LastOk(n, h, m, lastseen, start, lim, false)
  }

  lemma ToldSeen(n: Cnfa, h: Trail, m: Memory, lastseen: seq<Ptr>, start: nat, lim: nat, now: nat)
    requires Told(n, h, m, lastseen, start, lim) && EntriesOk(n, m.used, m.states, m.flags)
    requires start <= now && lim <= now + 1
    ensures Seen(m.used, lastseen, start, now)
  {
    forall e, f | 1 <= e < f < m.used && lastseen[e] != NIL
      ensures lastseen[e] != lastseen[f]
    {
      assert SeenAt(n, h, m, lastseen, start, lim, e) && SeenAt(n, h, m, lastseen, start, lim, f);
      assert EntryOk(n, e, m.states[e], m.flags[e]) && EntryOk(n, f, m.states[f], m.flags[f]);
      if lastseen[e] == lastseen[f] {
        BitsInjective(m.states[e], m.states[f]);
      }
    }
    forall e | 0 <= e < m.used
      ensures lastseen[e] == NIL || start <= lastseen[e] <= now
    {
      assert SeenAt(n, h, m, lastseen, start, lim, e);
    }
  }

  /** Arriving at position cp in entry r, whether it was cached, new or recycled. */
  lemma Arrived(n: Cnfa, h: Trail, m0: Memory, m: Memory, lastseen: seq<Ptr>, start: nat, cp: nat, r: nat)
    requires Told(n, h, m0, lastseen, start, cp) && Kept(m0, m, lastseen, r) && r < m.used
    requires start <= cp && Bits(m.states[r]) == h(cp)
    requires EntriesOk(n, m0.used, m0.states, m0.flags) && EntriesOk(n, m.used, m.states, m.flags)
    ensures Told(n, h, m, lastseen[r := cp], start, cp + 1)
  {
    var lastseen', lim := lastseen[r := cp], cp + 1;
    forall e | 0 <= e < m.used
      ensures SeenAt(n, h, m, lastseen', start, lim, e)
    {
      assert e != r ==> SeenAt(n, h, m0, lastseen, start, cp, e);
    }
    ArrivedLast(n, h, m0, m, lastseen, start, cp, r, true);
    ArrivedLast(n, h, m0, m, lastseen, start, cp, r, false);
  }

  lemma ArrivedLast(n: Cnfa, h: Trail, m0: Memory, m: Memory, lastseen: seq<Ptr>, start: nat, cp: nat, r: nat, goal: bool)
    requires Told(n, h, m0, lastseen, start, cp) && Kept(m0, m, lastseen, r) && r < m.used
    requires start <= cp && Bits(m.states[r]) == h(cp)
    requires EntriesOk(n, m0.used, m0.states, m0.flags) && EntriesOk(n, m.used, m.states, m.flags)
    ensures LastOk(n, h, m, lastseen[r := cp], start, cp + 1, goal)
  {
    assert LastOk(n, h, m0, lastseen, start, cp, goal);
    assert EntryOk(n, r, m.states[r], m.flags[r]);
    if r < m0.used {
      assert SeenAt(n, h, m0, lastseen, start, cp, r) && EntryOk(n, r, m0.states[r], m0.flags[r]);
    }
    forall q: nat | q < cp + 1 && HasAt(n, h, start, q, goal)
      ensures Known(m, lastseen[r := cp], goal, q)
    {
      if q == cp {
        assert Flagged(m.flags[r], goal) && lastseen[r := cp][r] >= q;
      } else if Last(m0, goal) < q {
        assert Known(m0, lastseen, goal, q);
        var e :| 0 <= e < m0.used && Flagged(m0.flags[e], goal) && lastseen[e] >= q;
        assert e != r ==> Flagged(m.flags[e], goal) && lastseen[r := cp][e] >= q;
        assert e == r && m.states[r] == m0.states[r] ==> Flagged(m.flags[r], goal) && lastseen[r := cp][r] >= q;
      }
    }
  }

  /** A flagged entry, other than the starter at the start, was last seen where its set occurred. */
  ghost predicate FlagTrue(n: Cnfa, h: Trail, m: Memory, lastseen: seq<Ptr>, start: nat, lim: nat, goal: bool, e: nat)
    requires e < |m.flags| && e < |lastseen|
  {
    !Flagged(m.flags[e], goal) || lastseen[e] == NIL || (!goal && lastseen[e] == start)
    || (lastseen[e] < lim && HasAt(n, h, start, lastseen[e], goal))
  }

  /** What the scans that end a match attempt rely on. */
  ghost predicate ScanOk(n: Cnfa, h: Trail, m: Memory, lastseen: seq<Ptr>, start: nat, lim: nat, goal: bool) {
    && m.used <= |m.states| == |m.flags| == |lastseen|
    && LastOk(n, h, m, lastseen, start, lim, goal)
    && forall e | 0 <= e < m.used :: FlagTrue(n, h, m, lastseen, start, lim, goal, e)
  }

  lemma ToldScan(n: Cnfa, h: Trail, m: Memory, lastseen: seq<Ptr>, start: nat, lim: nat, goal: bool)
    requires Told(n, h, m, lastseen, start, lim) && EntriesOk(n, m.used, m.states, m.flags)
    requires n.pre != n.post
    ensures ScanOk(n, h, m, lastseen, start, lim, goal)
  {
    forall e | 0 <= e < m.used
      ensures FlagTrue(n, h, m, lastseen, start, lim, goal, e)
    {
      assert SeenAt(n, h, m, lastseen, start, lim, e) && EntryOk(n, e, m.states[e], m.flags[e]);
    }
  }

  /** The extra step at the end of the string disturbs no goal position, unless it reaches the goal. */
  lemma EosScan(n: Cnfa, h: Trail, m0: Memory, m: Memory, lastseen: seq<Ptr>, start: nat, cp: nat, r: nat)
    requires Told(n, h, m0, lastseen, start, cp + 1) && Kept(m0, m, lastseen, r) && r < m.used
    requires EntriesOk(n, m0.used, m0.states, m0.flags) && n.pre != n.post
    requires !m.flags[r].poststate
    ensures ScanOk(n, h, m, lastseen[r := cp], start, cp + 1, true)
  {
    var lastseen', lim := lastseen[r := cp], cp + 1;
    ToldScan(n, h, m0, lastseen, start, lim, true);
    forall e | 0 <= e < m.used
      ensures FlagTrue(n, h, m, lastseen', start, lim, true, e)
    {
      assert e != r ==> FlagTrue(n, h, m0, lastseen, start, lim, true, e);
    }
    if r < m0.used {
      assert FlagTrue(n, h, m0, lastseen, start, lim, true, r);
    }
    forall q: nat | q < lim && HasAt(n, h, start, q, true)
      ensures Known(m, lastseen', true, q)
    {
      assert Known(m0, lastseen, true, q);
      if m0.lastpost < q {
        var e :| 0 <= e < m0.used && Flagged(m0.flags[e], true) && lastseen[e] >= q;
        assert e != r ==> Flagged(m.flags[e], true) && lastseen'[e] >= q;
      }
    }
  }

  /** The latest position of its kind below `lim`, or NIL. */
  ghost predicate IsLatest(n: Cnfa, h: Trail, start: nat, lim: nat, goal: bool, p: Ptr) {
    && (p == NIL || (p < lim && HasAt(n, h, start, p, goal)))
    && forall q: nat | q < lim && HasAt(n, h, start, q, goal) :: q <= p
  }
}
