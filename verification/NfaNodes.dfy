/** The NFAs of the nodes of a subexpression tree (regcomp.c, `nfanode`): a part of the main NFA, alone between
    whatever may come before and after it, matches what passes across the part. */
module NfaNodes {
  import opened Cnfas
  import opened Nets
  import opened NetFragments
  import opened NfaMatch
  import opened NfaProblem

  /** A part of an NFA: its ends and the states between them. */
  datatype Part = Part(lp: nat, B: set<nat>, rp: nat)

  /** From position p to position q one gets across. */
  ghost predicate Across(g: Net, s: Subject, w: Part, p: nat, q: nat) {
    Passes(g, s, w.lp, w.B, w.rp, p, q)
  }

  // ----- only what lies between and beside the positions matters

  /** Subject t is subject s from d on, as far as it goes. */
  ghost predicate Cutout(s: Subject, t: Subject, d: nat) {
    && d + |t.x| <= |s.x| && (forall i :: 0 <= i < |t.x| ==> t.x[i] == s.x[d + i])
    && (forall k: nat, p: nat :: 1 <= p < |t.x| ==> t.la(k, p) == s.la(k, p + d))
  }

  lemma FiresOnward(g: Net, s: Subject, a: Arc, u: nat, v: nat)
    requires Fires(g, s, a, u, v)
    ensures u <= v <= u + 1
  {}

  lemma AcrossOnward(g: Net, s: Subject, w: Part, p0: nat, q: nat)
    requires Across(g, s, w, p0, q)
    ensures p0 <= q
  {
    var n, inv := FragNet(g, w.lp, w.B), (x: nat, p: nat) => p0 <= p;
    forall a: Arc, u: nat, v: nat {:trigger Fires(n, s, a, u, v)} |
      a in n.arcs && Reached(n, s, Config(w.lp, p0), a.from, u) && inv(a.from, u) && Fires(n, s, a, u, v)
      ensures inv(a.to, v)
    {
      FiresOnward(n, s, a, u, v);
    }
    ReachedInduction(n, s, Config(w.lp, p0), inv);
    assert inv(w.rp, q);
  }

  lemma FiresCutout(g: Net, s: Subject, t: Subject, d: nat, a: Arc, u: nat, v: nat)
    requires Cutout(s, t, d) && 1 <= u && v < |t.x|
    ensures Fires(g, t, a, u, v) <==> Fires(g, s, a, u + d, v + d)
  {
    assert v > 0 && v < |t.x| ==> t.x[v] == s.x[d + v];
    assert v > 0 && v - 1 < |t.x| ==> t.x[v - 1] == s.x[d + (v - 1)];
    assert u < |t.x| ==> t.x[u] == s.x[d + u];
  }

  lemma CutoutForth(g: Net, s: Subject, t: Subject, d: nat, lp: nat, p0: nat, y: nat, q: nat)
    requires Cutout(s, t, d) && 1 <= p0 && Reached(g, t, Config(lp, p0), y, q)
    ensures p0 <= q && (q < |t.x| ==> Reached(g, s, Config(lp, p0 + d), y, q + d))
  {
    var c, e := Config(lp, p0), Config(lp, p0 + d);
    var inv := (x: nat, p: nat) => p0 <= p && (p < |t.x| ==> Reached(g, s, e, x, p + d));
    ReachedHere(g, s, e);
    forall a: Arc, u: nat, v: nat {:trigger Fires(g, t, a, u, v)} |
      a in g.arcs && Reached(g, t, c, a.from, u) && inv(a.from, u) && Fires(g, t, a, u, v)
      ensures inv(a.to, v)
    {
      FiresOnward(g, t, a, u, v);
      if v < |t.x| {
        FiresCutout(g, s, t, d, a, u, v);
        ReachedStep(g, s, e, a, u + d, v + d);
      }
    }
    ReachedInduction(g, t, c, inv);
    assert inv(y, q);
  }

  lemma CutoutBack(g: Net, s: Subject, t: Subject, d: nat, lp: nat, p0: nat, y: nat, q: nat)
    requires Cutout(s, t, d) && 1 <= p0 && Reached(g, s, Config(lp, p0 + d), y, q + d)
    ensures p0 <= q && (q < |t.x| ==> Reached(g, t, Config(lp, p0), y, q))
  {
    var c, e := Config(lp, p0), Config(lp, p0 + d);
    var inv := (x: nat, p: nat) => p0 + d <= p && (p < |t.x| + d ==> Reached(g, t, c, x, p - d));
    ReachedHere(g, t, c);
    forall a: Arc, u: nat, v: nat {:trigger Fires(g, s, a, u, v)} |
      a in g.arcs && Reached(g, s, e, a.from, u) && inv(a.from, u) && Fires(g, s, a, u, v)
      ensures inv(a.to, v)
    {
      FiresOnward(g, s, a, u, v);
      if v < |t.x| + d {
        FiresCutout(g, s, t, d, a, u - d, v - d);
        ReachedStep(g, t, c, a, u - d, v - d);
      }
    }
    ReachedInduction(g, s, e, inv);
    assert inv(y, q + d);
  }

  /** Getting across is the same in the cutout. */
  lemma AcrossCutout(g: Net, s: Subject, t: Subject, d: nat, w: Part, p: nat, q: nat)
    requires Cutout(s, t, d) && 1 <= p && q < |t.x|
    ensures Across(g, t, w, p, q) <==> Across(g, s, w, p + d, q + d)
  {
    var n := FragNet(g, w.lp, w.B);
    if Across(g, t, w, p, q) {
      CutoutForth(n, s, t, d, w.lp, p, w.rp, q);
    }
    if Across(g, s, w, p + d, q + d) {
      CutoutBack(n, s, t, d, w.lp, p, w.rp, q);
    }
  }

  // ----- a part alone in an NFA

  /** The arc reads what may come before a match, or after it. */
  predicate Front(g: Net, colors: seq<nat>, init: nat, a: Arc) {
    a.from == g.pre && a.to == init && ((a.kind == PLAIN && a.co in colors) || (a.kind == CARET && a.co < 2))
  }

  predicate Back(g: Net, colors: seq<nat>, final: nat, a: Arc) {
    a.from == final && a.to == g.post && ((a.kind == PLAIN && a.co in colors) || (a.kind == DOLLAR && a.co < 2))
  }

  /** `newnfa`: one part, before it any character or the beginning of the string, after it any character or its end. */
  ghost predicate Shell(g: Net, colors: seq<nat>, w: Part) {
    && Frag(g, w.lp, w.B, w.rp) && |g.bos| == 2 && |g.eos| == 2 && g.pre != g.post
    && forall a :: a in Outside(g, w.lp, w.B) <==> Front(g, colors, w.lp, a) || Back(g, colors, w.rp, a)
  }

  /** A subject of a text: characters between what is before and after them. */
  ghost predicate Framed(g: Net, colors: seq<nat>, s: Subject) {
    |s.x| >= 2 && (s.x[0] in colors || s.x[0] in g.bos) && (s.x[|s.x| - 1] in colors || s.x[|s.x| - 1] in g.eos)
  }

  lemma ShellForth(g: Net, colors: seq<nat>, w: Part, s: Subject)
    requires Shell(g, colors, w) && Framed(g, colors, s) && Accepts(g, s)
    ensures Across(g, s, w, 1, |s.x| - 1)
  {
    var n, c := FragNet(g, w.lp, w.B), Config(w.lp, 1);
    var inv := (x: nat, p: nat) =>
      && (x == g.pre ==> p == 0) && (x == w.lp || x in w.B || x == w.rp ==> Reached(n, s, c, x, p))
      && (x == g.post ==> p >= 1 && Reached(n, s, c, w.rp, p - 1));
    ReachedHere(n, s, c);
    forall a: Arc, u: nat, v: nat {:trigger Fires(g, s, a, u, v)} |
      a in g.arcs && Reached(g, s, Start(g), a.from, u) && inv(a.from, u) && Fires(g, s, a, u, v)
      ensures inv(a.to, v)
    {
      assert FragArc(a, w.lp, w.B, w.rp);
      if a in n.arcs {
        ReachedStep(n, s, c, a, u, v);
      } else {
        assert a in Outside(g, w.lp, w.B);
      }
    }
    ReachedInduction(g, s, Start(g), inv);
    assert inv(g.post, |s.x|);
  }

  lemma FrontArc(g: Net, colors: seq<nat>, w: Part, s: Subject) returns (a: Arc)
    requires Shell(g, colors, w) && Framed(g, colors, s)
    ensures a in g.arcs && a.from == g.pre && a.to == w.lp && Fires(g, s, a, 0, 1)
  {
    if s.x[0] in colors {
      a := Arc(PLAIN, s.x[0], g.pre, w.lp);
    } else {
      a := Arc(CARET, if s.x[0] == g.bos[0] then 0 else 1, g.pre, w.lp);
    }
    assert Front(g, colors, w.lp, a);
    assert a in Outside(g, w.lp, w.B);
  }

  lemma BackArc(g: Net, colors: seq<nat>, w: Part, s: Subject) returns (a: Arc)
    requires Shell(g, colors, w) && Framed(g, colors, s)
    ensures a in g.arcs && a.from == w.rp && a.to == g.post && Fires(g, s, a, |s.x| - 1, |s.x|)
  {
    var last := s.x[|s.x| - 1];
    if last in colors {
      a := Arc(PLAIN, last, w.rp, g.post);
    } else {
      a := Arc(DOLLAR, if last == g.eos[0] then 0 else 1, w.rp, g.post);
    }
    assert Back(g, colors, w.rp, a);
    assert a in Outside(g, w.lp, w.B);
  }

  lemma ShellBack(g: Net, colors: seq<nat>, w: Part, s: Subject)
    requires Shell(g, colors, w) && Framed(g, colors, s) && Across(g, s, w, 1, |s.x| - 1)
    ensures Accepts(g, s)
  {
    var n, c := FragNet(g, w.lp, w.B), Config(w.lp, 1);
    ReachedHere(g, s, Start(g));
    var a := FrontArc(g, colors, w, s);
    ReachedStep(g, s, Start(g), a, 0, 1);
    ReachedMore(n, g, s, c);
    ReachedOn(g, s, Start(g), c);
    var b := BackArc(g, colors, w, s);
    ReachedStep(g, s, Start(g), b, |s.x| - 1, |s.x|);
  }

  /** Such an NFA accepts what passes across the part from the first character to the last. */
  lemma ShellAccepts(g: Net, colors: seq<nat>, w: Part, s: Subject)
    requires Shell(g, colors, w) && Framed(g, colors, s)
    ensures Accepts(g, s) <==> Across(g, s, w, 1, |s.x| - 1)
  {
    if Accepts(g, s) {
      ShellForth(g, colors, w, s);
    }
    if Across(g, s, w, 1, |s.x| - 1) {
      ShellBack(g, colors, w, s);
    }
  }

  // ----- `nfanode`

  /** Part w' of h is part w of g with other names for its states. */
  ghost predicate Renamed(g: Net, w: Part, h: Net, w': Part, t: map<nat, nat>) {
    && h.bos == g.bos && h.eos == g.eos && Frag(g, w.lp, w.B, w.rp) && Frag(h, w'.lp, w'.B, w'.rp)
    && w.lp in t && t[w.lp] == w'.lp && w.rp in t && t[w.rp] == w'.rp
    && (forall x, y :: x in t && y in t && t[x] == t[y] ==> x == y)
    && (forall a :: a in Inside(g, w.lp, w.B) && a.from in t ==> a.to in t && Named(a, t) in Inside(h, w'.lp, w'.B))
    && forall b :: b in Inside(h, w'.lp, w'.B) ==> exists a :: a in Inside(g, w.lp, w.B) && a.from in t && a.to in t && b == Named(a, t)
  }

  ghost function Named(a: Arc, t: map<nat, nat>): Arc {
    a.(from := if a.from in t then t[a.from] else a.from, to := if a.to in t then t[a.to] else a.to)
  }

  lemma FiresNamed(g: Net, w: Part, h: Net, w': Part, t: map<nat, nat>, s: Subject, a: Arc, u: nat, v: nat)
    requires Renamed(g, w, h, w', t) && a in Inside(g, w.lp, w.B) && a.from in t && a.to in t && Named(a, t) in Inside(h, w'.lp, w'.B)
    ensures Fires(FragNet(g, w.lp, w.B), s, a, u, v) <==> Fires(FragNet(h, w'.lp, w'.B), s, Named(a, t), u, v)
  {
    assert FragArc(a, w.lp, w.B, w.rp) && FragArc(Named(a, t), w'.lp, w'.B, w'.rp);
  }

  /** The state named y is reached as in the original. */
  ghost predicate Origin(g: Net, s: Subject, w: Part, t: map<nat, nat>, p0: nat, x: nat, y: nat, p: nat) {
    x in t && t[x] == y && Reached(FragNet(g, w.lp, w.B), s, Config(w.lp, p0), x, p)
  }

  lemma RenamedForth(g: Net, w: Part, h: Net, w': Part, t: map<nat, nat>, s: Subject, p0: nat, q: nat)
    requires Renamed(g, w, h, w', t) && Across(g, s, w, p0, q)
    ensures Across(h, s, w', p0, q)
  {
    var n, m, c, d := FragNet(g, w.lp, w.B), FragNet(h, w'.lp, w'.B), Config(w.lp, p0), Config(w'.lp, p0);
    var inv := (x: nat, p: nat) => x in t && Reached(m, s, d, t[x], p);
    ReachedHere(m, s, d);
    forall a: Arc, u: nat, v: nat {:trigger Fires(n, s, a, u, v)} |
      a in n.arcs && Reached(n, s, c, a.from, u) && inv(a.from, u) && Fires(n, s, a, u, v)
      ensures inv(a.to, v)
    {
      FiresNamed(g, w, h, w', t, s, a, u, v);
      ReachedStep(m, s, d, Named(a, t), u, v);
    }
    ReachedInduction(n, s, c, inv);
    assert inv(w.rp, q);
  }

  lemma RenamedBack(g: Net, w: Part, h: Net, w': Part, t: map<nat, nat>, s: Subject, p0: nat, q: nat)
    requires Renamed(g, w, h, w', t) && Across(h, s, w', p0, q)
    ensures Across(g, s, w, p0, q)
  {
    var n, m, c, d := FragNet(g, w.lp, w.B), FragNet(h, w'.lp, w'.B), Config(w.lp, p0), Config(w'.lp, p0);
    var inv := (y: nat, p: nat) => exists x: nat :: Origin(g, s, w, t, p0, x, y, p);
    ReachedHere(n, s, c);
    assert Origin(g, s, w, t, p0, w.lp, w'.lp, p0);
    forall b: Arc, u: nat, v: nat {:trigger Fires(m, s, b, u, v)} |
      b in m.arcs && Reached(m, s, d, b.from, u) && inv(b.from, u) && Fires(m, s, b, u, v)
      ensures inv(b.to, v)
    {
      var x: nat :| Origin(g, s, w, t, p0, x, b.from, u);
      var a :| a in Inside(g, w.lp, w.B) && a.from in t && a.to in t && b == Named(a, t);
      FiresNamed(g, w, h, w', t, s, a, u, v);
      ReachedStep(n, s, c, a, u, v);
      assert Origin(g, s, w, t, p0, a.to, b.to, v);
    }
    ReachedInduction(m, s, d, inv);
    assert inv(w'.rp, q);
    var x: nat :| Origin(g, s, w, t, p0, x, w'.rp, q);
  }

  /** What a node's NFA is for: it matches what passes across its part of the main NFA. */
  ghost predicate Node(j: Job, g: Net, w: Part) {
    && |g.bos| == 2 && |g.eos| == 2 && j.n.bos == g.bos && j.n.eos == g.eos
    && forall b: nat, e: nat | b <= e <= |j.v.text| :: j.Matches(b, e) <==> Across(g, SubjectOf(j, b, e), w, 1, e - b + 1)
  }

  /** `nfanode`: the part renamed and put alone into an NFA makes one. */
  lemma NodeMade(j: Job, g: Net, w: Part, h: Net, w': Part, t: map<nat, nat>, colors: seq<nat>)
    requires Renamed(g, w, h, w', t) && Shell(h, colors, w') && MatchesAs(j, h)
    requires forall i | 0 <= i < |j.v.text| :: j.v.cm(j.v.text[i]) in colors
    ensures Node(j, g, w)
  {
    forall b: nat, e: nat | b <= e <= |j.v.text|
      ensures j.Matches(b, e) <==> Across(g, SubjectOf(j, b, e), w, 1, e - b + 1)
    {
      var s := SubjectOf(j, b, e);
      assert |s.x| == e - b + 2 && s.x[0] == j.PrevColor(b) && s.x[|s.x| - 1] == j.NextColor(e);
      ShellAccepts(h, colors, w', s);
      if Across(g, s, w, 1, e - b + 1) {
        RenamedForth(g, w, h, w', t, s, 1, e - b + 1);
      }
      if Across(h, s, w', 1, e - b + 1) {
        RenamedBack(g, w, h, w', t, s, 1, e - b + 1);
      }
    }
  }

  lemma LaconAt(j: Job, b: nat, e: nat, k: nat, p: nat)
    requires |j.n.bos| == 2 && |j.n.eos| == 2 && b <= e <= |j.v.text|
    ensures SubjectOf(j, b, e).la(k, p) == j.la(k, TextPos(j, b, p))
  {}

  lemma ColorAt(j: Job, b: nat, e: nat, p: nat)
    requires |j.n.bos| == 2 && |j.n.eos| == 2 && b <= e <= |j.v.text| && p < e - b + 2
    ensures |SubjectOf(j, b, e).x| == e - b + 2
    ensures SubjectOf(j, b, e).x[p] ==
      if b + p == 0 then j.PrevColor(0) else if b + p > |j.v.text| then j.NextColor(|j.v.text|) else j.v.cm(j.v.text[b + p - 1])
  {}

  /** A stretch of a stretch of text, as subjects. */
  lemma Stretch(j: Job, k: Job, b: nat, e: nat, c: nat, f: nat)
    requires |j.n.bos| == 2 && |j.n.eos| == 2 && k.v == j.v && k.la == j.la && k.n.bos == j.n.bos && k.n.eos == j.n.eos
    requires b <= c <= f <= e <= |j.v.text|
    ensures Cutout(SubjectOf(j, b, e), SubjectOf(k, c, f), c - b)
  {
    var s, t, d := SubjectOf(j, b, e), SubjectOf(k, c, f), c - b;
    forall i: nat | i < |t.x|
      ensures t.x[i] == s.x[d + i]
    {
      ColorAt(j, b, e, d + i);
      ColorAt(k, c, f, i);
    }
    forall m: nat, p: nat | 1 <= p < |t.x|
      ensures t.la(m, p) == s.la(m, p + d)
    {
      LaconAt(j, b, e, m, p + d);
      LaconAt(k, c, f, m, p);
    }
  }

  /** A node for a stretch of the text matches what passes across its part within the longer one. */
  lemma NodeWithin(j: Job, k: Job, g: Net, w: Part, b: nat, e: nat, c: nat, f: nat)
    requires Node(k, g, w) && k.v == j.v && k.la == j.la && k.n.bos == j.n.bos && k.n.eos == j.n.eos
    requires b <= c <= f <= e <= |j.v.text|
    ensures k.Matches(c, f) <==> Across(g, SubjectOf(j, b, e), w, c - b + 1, f - b + 1)
  {
    Stretch(j, k, b, e, c, f);
    AcrossCutout(g, SubjectOf(j, b, e), SubjectOf(k, c, f), c - b, w, 1, f - c + 1);
  }
}
