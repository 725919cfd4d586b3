/** NFAs under construction (regc_nfa.c): states with chains of inarcs and outarcs, changed in place, and the
    primitives everything else is made of. */
module Nfas {
  import opened Nets
  import opened NetRewrites
  import opened Folding

  ghost predicate Distinct<T>(c: seq<T>) {
    forall i, k | 0 <= i < k < |c| :: c[i] != c[k]
  }

  /** No arc has a label that none had before, and no state has gained a `tmp`. */
  ghost predicate NothingNew(arcs0: set<Arc>, tmp0: map<nat, nat>, arcs: set<Arc>, tmp: map<nat, nat>) {
    Labels(arcs) <= Labels(arcs0) && tmp.Keys <= tmp0.Keys
  }

  /** Change an element of a chain in place. */
  method Replace<T(==)>(c: seq<T>, a: T, b: T) returns (r: seq<T>)
    requires Distinct(c) && a in c && b !in c
    ensures Distinct(r) && |r| == |c|
    ensures forall x :: x in r <==> x == b || (x in c && x != a)
  {
    var i := 0;
    while c[i] != a
      invariant 0 <= i < |c| && a !in c[..i]
      decreases |c| - i
    {
      assert c == c[..i] + [c[i]] + c[i + 1..];
      i := i + 1;
      assert c[..i] == c[..i - 1] + [c[i - 1]];
    }
    r := c[i := b];
    forall x
      ensures x in r <==> x == b || (x in c && x != a)
    {
      assert r[i] == b;
      if x in c && x != a {
        var k :| 0 <= k < |c| && c[k] == x;
        assert r[k] == x;
      }
    }
  }

  ghost function Elements(c: seq<Arc>): set<Arc> {
    set a | a in c
  }

  /** Take an element off a chain. */
  method Unlink<T(==)>(c: seq<T>, a: T) returns (r: seq<T>)
    requires Distinct(c) && a in c
    ensures Distinct(r) && |r| == |c| - 1
    ensures forall b :: b in r <==> b in c && b != a
  {
    var i := 0;
    while c[i] != a
      invariant 0 <= i < |c| && a !in c[..i]
      decreases |c| - i
    {
      assert c == c[..i] + [c[i]] + c[i + 1..];
      i := i + 1;
      assert c[..i] == c[..i - 1] + [c[i - 1]];
    }
    r := c[..i] + c[i + 1..];
    forall b
      ensures b in r <==> b in c && b != a
    {
      if b in c && b != a {
        var k :| 0 <= k < |c| && c[k] == b;
        assert k < i ==> r[k] == b;
        assert k > i ==> r[k - 1] == b;
      }
    }
  }

  /** The chain lists exactly the arcs out of x (or into x), none twice. */
  ghost predicate ChainFor(c: seq<Arc>, arcs: set<Arc>, x: nat, out: bool) {
    Distinct(c) && forall a :: a in c <==> a in arcs && (if out then a.from else a.to) == x
  }

  /** The chains list exactly the arcs there are. */
  ghost predicate Linked(states: seq<nat>, outs: map<nat, seq<Arc>>, ins: map<nat, seq<Arc>>, arcs: set<Arc>) {
    && Distinct(states)
    && (forall x :: (x in states <==> x in outs) && (x in states <==> x in ins))
    && (forall x | x in outs :: ChainFor(outs[x], arcs, x, true))
    && (forall x | x in ins :: ChainFor(ins[x], arcs, x, false))
    && forall a | a in arcs :: a.from in states && a.to in states
  }

  /** Arcs that have a color, which puts them on a color chain. */
  predicate HasColor(k: Kind) {
    k == PLAIN || k == AHEAD || k == BEHIND
  }

  function ChainOf(colors: map<nat, seq<Arc>>, co: nat): seq<Arc> {
    if co in colors then colors[co] else []
  }

  /** The chain lists exactly the arcs of this color. */
  ghost predicate ColorChain(c: seq<Arc>, arcs: set<Arc>, co: nat) {
    Distinct(c) && forall a :: a in c <==> a in arcs && HasColor(a.kind) && a.co == co
  }

  ghost predicate ColorsLinked(colors: map<nat, seq<Arc>>, arcs: set<Arc>) {
    forall co: nat :: ColorChain(ChainOf(colors, co), arcs, co)
  }

  lemma ColorsMore(colors: map<nat, seq<Arc>>, arcs: set<Arc>, a: Arc)
    requires ColorsLinked(colors, arcs) && a !in arcs
    ensures ColorsLinked(if HasColor(a.kind) then colors[a.co := [a] + ChainOf(colors, a.co)] else colors, arcs + {a})
  {
    var colors' := if HasColor(a.kind) then colors[a.co := [a] + ChainOf(colors, a.co)] else colors;
    forall co: nat
      ensures ColorChain(ChainOf(colors', co), arcs + {a}, co)
    {
      assert ColorChain(ChainOf(colors, co), arcs, co);
      if HasColor(a.kind) && co == a.co {
        var c := ChainOf(colors, co);
        forall i, k | 0 <= i < k < |[a] + c|
          ensures ([a] + c)[i] != ([a] + c)[k]
        {
          assert ([a] + c)[k] in c;
        }
      }
    }
  }

  lemma ColorsLess(colors: map<nat, seq<Arc>>, arcs: set<Arc>, a: Arc, c: seq<Arc>)
    requires ColorsLinked(colors, arcs) && a in arcs
    requires HasColor(a.kind) ==> ColorChain(c, arcs - {a}, a.co)
    ensures ColorsLinked(if HasColor(a.kind) then colors[a.co := c] else colors, arcs - {a})
  {
    var colors' := if HasColor(a.kind) then colors[a.co := c] else colors;
    forall co: nat
      ensures ColorChain(ChainOf(colors', co), arcs - {a}, co)
    {
      assert ColorChain(ChainOf(colors, co), arcs, co);
    }
  }

  lemma LinkedState(states: seq<nat>, outs: map<nat, seq<Arc>>, ins: map<nat, seq<Arc>>, arcs: set<Arc>, s: nat)
    requires Linked(states, outs, ins, arcs) && s !in states
    ensures Linked(states + [s], outs[s := []], ins[s := []], arcs)
  {
    assert ChainFor([], arcs, s, true) && ChainFor([], arcs, s, false);
    forall i, k | 0 <= i < k < |states + [s]|
      ensures (states + [s])[i] != (states + [s])[k]
    {
      assert states[i] in states;
    }
  }

  lemma LinkedMore(states: seq<nat>, outs: map<nat, seq<Arc>>, ins: map<nat, seq<Arc>>, arcs: set<Arc>, a: Arc)
    requires Linked(states, outs, ins, arcs) && a !in arcs && a.from in states && a.to in states
    ensures Linked(states, outs[a.from := [a] + outs[a.from]], ins[a.to := [a] + ins[a.to]], arcs + {a})
  {
    var o, i, all := outs[a.from := [a] + outs[a.from]], ins[a.to := [a] + ins[a.to]], arcs + {a};
    forall x | x in o
      ensures ChainFor(o[x], all, x, true)
    {
      assert ChainFor(outs[x], arcs, x, true);
      MoreChain(outs[x], arcs, x, true, a);
    }
    forall x | x in i
      ensures ChainFor(i[x], all, x, false)
    {
      assert ChainFor(ins[x], arcs, x, false);
      MoreChain(ins[x], arcs, x, false, a);
    }
  }

  lemma MoreChain(c: seq<Arc>, arcs: set<Arc>, x: nat, out: bool, a: Arc)
    requires ChainFor(c, arcs, x, out) && a !in arcs
    ensures ChainFor(if (if out then a.from else a.to) == x then [a] + c else c, arcs + {a}, x, out)
  {
    if (if out then a.from else a.to) == x {
      assert a !in c;
      forall i, k | 0 <= i < k < |[a] + c|
        ensures ([a] + c)[i] != ([a] + c)[k]
      {
        assert ([a] + c)[k] in c;
      }
    }
  }

  lemma LinkedLess(states: seq<nat>, outs: map<nat, seq<Arc>>, ins: map<nat, seq<Arc>>, arcs: set<Arc>, a: Arc, o: seq<Arc>, i: seq<Arc>)
    requires Linked(states, outs, ins, arcs) && a in arcs
    requires ChainFor(o, arcs - {a}, a.from, true) && ChainFor(i, arcs - {a}, a.to, false)
    ensures Linked(states, outs[a.from := o], ins[a.to := i], arcs - {a})
  {
    forall x | x in outs && x != a.from
      ensures ChainFor(outs[x], arcs - {a}, x, true)
    {
      assert ChainFor(outs[x], arcs, x, true);
    }
    forall x | x in ins && x != a.to
      ensures ChainFor(ins[x], arcs - {a}, x, false)
    {
      assert ChainFor(ins[x], arcs, x, false);
    }
  }

  lemma LinkedWithout(states: seq<nat>, outs: map<nat, seq<Arc>>, ins: map<nat, seq<Arc>>, arcs: set<Arc>, s: nat, left: seq<nat>)
    requires Linked(states, outs, ins, arcs) && forall a | a in arcs :: a.from != s && a.to != s
    requires Distinct(left) && forall x :: x in left <==> x in states && x != s
    ensures Linked(left, outs - {s}, ins - {s}, arcs)
  {}

  /** All chains are right, not to be looked into. */
  ghost predicate Tight(states: seq<nat>, outs: map<nat, seq<Arc>>, ins: map<nat, seq<Arc>>, colors: map<nat, seq<Arc>>, arcs: set<Arc>) {
    forall u {:trigger Peek(u)} :: Peek(u) ==> Linked(states, outs, ins, arcs) && ColorsLinked(colors, arcs)
  }

  lemma Loosen(states: seq<nat>, outs: map<nat, seq<Arc>>, ins: map<nat, seq<Arc>>, colors: map<nat, seq<Arc>>, arcs: set<Arc>)
    requires Tight(states, outs, ins, colors, arcs)
    ensures Linked(states, outs, ins, arcs) && ColorsLinked(colors, arcs)
  {
    assert Peek(0);
  }

  lemma TightState(states: seq<nat>, outs: map<nat, seq<Arc>>, ins: map<nat, seq<Arc>>, colors: map<nat, seq<Arc>>, arcs: set<Arc>, s: nat)
    requires Tight(states, outs, ins, colors, arcs) && s !in states
    ensures Tight(states + [s], outs[s := []], ins[s := []], colors, arcs)
  {
    Loosen(states, outs, ins, colors, arcs);
    LinkedState(states, outs, ins, arcs, s);
  }

  lemma TightMore(states: seq<nat>, outs: map<nat, seq<Arc>>, ins: map<nat, seq<Arc>>, colors: map<nat, seq<Arc>>, arcs: set<Arc>, a: Arc,
                  outs': map<nat, seq<Arc>>, ins': map<nat, seq<Arc>>, colors': map<nat, seq<Arc>>)
    requires Tight(states, outs, ins, colors, arcs) && a !in arcs && a.from in states && a.to in states
    requires a.from in outs && a.to in ins
    requires outs' == outs[a.from := [a] + outs[a.from]] && ins' == ins[a.to := [a] + ins[a.to]]
    requires colors' == if HasColor(a.kind) then colors[a.co := [a] + ChainOf(colors, a.co)] else colors
    ensures Tight(states, outs', ins', colors', arcs + {a})
  {
    Loosen(states, outs, ins, colors, arcs);
    LinkedMore(states, outs, ins, arcs, a);
    ColorsMore(colors, arcs, a);
  }

  lemma TightLess(states: seq<nat>, outs: map<nat, seq<Arc>>, ins: map<nat, seq<Arc>>, colors: map<nat, seq<Arc>>, arcs: set<Arc>,
                  a: Arc, o: seq<Arc>, i: seq<Arc>, c: seq<Arc>)
    requires Tight(states, outs, ins, colors, arcs) && a in arcs
    requires ChainFor(o, arcs - {a}, a.from, true) && ChainFor(i, arcs - {a}, a.to, false)
    requires HasColor(a.kind) ==> ColorChain(c, arcs - {a}, a.co)
    ensures Tight(states, outs[a.from := o], ins[a.to := i], if HasColor(a.kind) then colors[a.co := c] else colors, arcs - {a})
  {
    Loosen(states, outs, ins, colors, arcs);
    LinkedLess(states, outs, ins, arcs, a, o, i);
    ColorsLess(colors, arcs, a, c);
  }

  lemma TightWithout(states: seq<nat>, outs: map<nat, seq<Arc>>, ins: map<nat, seq<Arc>>, colors: map<nat, seq<Arc>>, arcs: set<Arc>,
                     s: nat, left: seq<nat>)
    requires Tight(states, outs, ins, colors, arcs) && forall a | a in arcs :: a.from != s && a.to != s
    requires Distinct(left) && forall x :: x in left <==> x in states && x != s
    ensures Tight(left, outs - {s}, ins - {s}, colors, arcs)
  {
    Loosen(states, outs, ins, colors, arcs);
    LinkedWithout(states, outs, ins, arcs, s, left);
  }

  lemma TightRecolored(states: seq<nat>, outs: map<nat, seq<Arc>>, ins: map<nat, seq<Arc>>, colors: map<nat, seq<Arc>>, arcs: set<Arc>,
                       a: Arc, co: nat, o: seq<Arc>, i: seq<Arc>, c: seq<Arc>)
    requires Tight(states, outs, ins, colors, arcs) && a in arcs && HasColor(a.kind) && a.(co := co) !in arcs && a.co != co
    requires ChainFor(o, arcs - {a} + {a.(co := co)}, a.from, true) && ChainFor(i, arcs - {a} + {a.(co := co)}, a.to, false)
    requires ColorChain(c, arcs - {a}, a.co)
    ensures Tight(states, outs[a.from := o], ins[a.to := i],
                  colors[a.co := c][co := [a.(co := co)] + ChainOf(colors, co)], arcs - {a} + {a.(co := co)})
  {
    var b := a.(co := co);
    var arcs', colors' := arcs - {a} + {b}, colors[a.co := c][co := [b] + ChainOf(colors, co)];
    Loosen(states, outs, ins, colors, arcs);
    forall x | x in outs && x != a.from
      ensures ChainFor(outs[x], arcs', x, true)
    {
      assert ChainFor(outs[x], arcs, x, true);
    }
    forall x | x in ins && x != a.to
      ensures ChainFor(ins[x], arcs', x, false)
    {
      assert ChainFor(ins[x], arcs, x, false);
    }
    ColorsLess(colors, arcs, a, c);
    ColorsMore(colors[a.co := c], arcs - {a}, b);
  }

  class Nfa {
    /** The chain of all states, and each one's chains of arcs. */
    var states: seq<nat>
    var outs: map<nat, seq<Arc>>
    var ins: map<nat, seq<Arc>>
    /** Temporary for traversals; no entry for NULL. */
    var tmp: map<nat, nat>
    /** The chains of arcs by color. */
    var colors: map<nat, seq<Arc>>
    /** States allocated so far; also the name of the next one. */
    var next: nat
    const pre: nat
    const post: nat
    const bos: seq<nat>
    const eos: seq<nat>
    /** All arcs there are. */
    ghost var arcs: set<Arc>

    ghost function G(): Net
      reads this
    {
      Net(arcs, pre, post, bos, eos)
    }

    ghost predicate Detail()
      reads this
    {
      && Tight(states, outs, ins, colors, arcs)
      && (forall x | x in states :: x < next)
      && (forall x | x in tmp :: x in states)
      && pre in states && post in states && pre != post
    }

    ghost predicate Sealed(all: set<Arc>)
      reads this
    {
      forall u {:trigger Look(u)} :: Look(u) ==> all == arcs && Detail()
    }

    /** The chains list exactly the arcs there are; carried along without being looked into. */
    ghost predicate Valid()
      reads this
    {
      && (forall x | x in states :: x in outs && x in ins) && pre in states && post in states
      && exists all: set<Arc> :: Sealed(all)
    }

    lemma Seal()
      requires Detail()
      ensures Valid()
    {
      Loosen(states, outs, ins, colors, arcs);
      assert Sealed(arcs);
    }

    /** The chains take new values, which are right for a new set of arcs. */
    method Relink(outs1: map<nat, seq<Arc>>, ins1: map<nat, seq<Arc>>, colors1: map<nat, seq<Arc>>, ghost all: set<Arc>)
      requires Tight(states, outs1, ins1, colors1, all) && pre in states && post in states && pre != post
      requires (forall x | x in states :: x < next) && (forall x | x in tmp :: x in states)
      modifies this`outs, this`ins, this`arcs, this`colors
      ensures Valid() && outs == outs1 && ins == ins1 && colors == colors1 && arcs == all
    {
      outs, ins, colors, arcs := outs1, ins1, colors1, all;
      Seal();
    }

    lemma Unseal()
      requires Valid()
      ensures Detail()
    {
      assert Look(0);
    }

    lemma Outs(x: nat)
      requires Valid() && x in states
      ensures x in outs && ChainFor(outs[x], arcs, x, true)
    {
      Unseal();
      Loosen(states, outs, ins, colors, arcs);
    }

    lemma Ins(x: nat)
      requires Valid() && x in states
      ensures x in ins && ChainFor(ins[x], arcs, x, false)
    {
      Unseal();
      Loosen(states, outs, ins, colors, arcs);
    }

    lemma States()
      requires Valid()
      ensures Distinct(states) && pre != post && (forall x | x in tmp :: x in states)
      ensures forall a | a in arcs :: a.from in states && a.to in states
    {
      Unseal();
      Loosen(states, outs, ins, colors, arcs);
    }

    lemma Ends(a: Arc)
      requires Valid() && a in arcs
      ensures a.from in states && a.to in states
    {
      Unseal();
      Loosen(states, outs, ins, colors, arcs);
    }

    predicate Flag(x: nat) {
      x == pre || x == post
    }

    /** `newstate`. */
    method NewState() returns (s: nat)
      requires Valid()
      modifies this
      ensures Valid() && s == old(next) && s !in old(states) && states == old(states) + [s] && next == s + 1
      ensures outs == old(outs)[s := []] && ins == old(ins)[s := []] && tmp == old(tmp) && arcs == old(arcs)
      ensures Unused(G(), s)
    {
      Unseal();
      States();
      s := next;
      TightState(states, outs, ins, colors, arcs, s);
      next := next + 1;
      states := states + [s];
      outs, ins := outs[s := []], ins[s := []];
      Seal();
    }

    /** A new arc is put at the front of its chains. */
    method LinkArc(a: Arc)
      requires Valid() && a.from in states && a.to in states && a !in arcs
      modifies this`outs, this`ins, this`arcs, this`colors
      ensures Valid() && arcs == old(arcs) + {a} && a.from in old(outs) && a.to in old(ins)
      ensures outs == old(outs)[a.from := [a] + old(outs)[a.from]] && ins == old(ins)[a.to := [a] + old(ins)[a.to]]
    {
      Unseal();
      var outs1, ins1 := outs[a.from := [a] + outs[a.from]], ins[a.to := [a] + ins[a.to]];
      var colors1 := if HasColor(a.kind) then colors[a.co := [a] + ChainOf(colors, a.co)] else colors;
      TightMore(states, outs, ins, colors, arcs, a, outs1, ins1, colors1);
      Relink(outs1, ins1, colors1, arcs + {a});
    }

    /** `newarc`: no arc is there twice; a new one comes first in its chains. */
    method NewArc(kind: Kind, co: nat, from: nat, to: nat)
      requires Valid() && from in states && to in states
      modifies this`outs, this`ins, this`arcs, this`colors
      ensures Valid() && arcs == old(arcs) + {Arc(kind, co, from, to)}
      ensures Arc(kind, co, from, to) in old(arcs) ==> outs == old(outs) && ins == old(ins)
      ensures from in old(outs) && to in old(ins)
      ensures Arc(kind, co, from, to) !in old(arcs) ==>
        && outs == old(outs)[from := [Arc(kind, co, from, to)] + old(outs)[from]]
        && ins == old(ins)[to := [Arc(kind, co, from, to)] + old(ins)[to]]
    {
      Outs(from);
      var a := Arc(kind, co, from, to);
      if a in outs[from] {
        return;
      }
      LinkArc(a);
    }

    lemma ColorArcs(co: nat)
      requires Valid()
      ensures ColorChain(ChainOf(colors, co), arcs, co)
    {
      Unseal();
      Loosen(states, outs, ins, colors, arcs);
    }

    /** Take an arc off its color chain (`uncolorchain`). */
    method UncolorChain(victim: Arc) returns (c: seq<Arc>)
      requires Valid() && victim in arcs && HasColor(victim.kind)
      ensures ColorChain(c, arcs - {victim}, victim.co)
    {
      ColorArcs(victim.co);
      c := Unlink(ChainOf(colors, victim.co), victim);
    }

    /** `freearc`. */
    method FreeArc(victim: Arc)
      requires Valid() && victim in arcs
      modifies this`outs, this`ins, this`arcs, this`colors
      ensures Valid() && arcs == old(arcs) - {victim}
    {
      Ends(victim);
      Outs(victim.from);
      Ins(victim.to);
      var o := Unlink(outs[victim.from], victim);
      var i := Unlink(ins[victim.to], victim);
      var c := [];
      if HasColor(victim.kind) {
        c := UncolorChain(victim);
      }
      Unseal();
      TightLess(states, outs, ins, colors, arcs, victim, o, i, c);
      Relink(outs[victim.from := o], ins[victim.to := i], if HasColor(victim.kind) then colors[victim.co := c] else colors, arcs - {victim});
    }

    /** Give an arc another color, in place (part of `okcolors`). */
    method Recolor(a: Arc, co: nat)
      requires Valid() && a in arcs && HasColor(a.kind) && a.(co := co) !in arcs && a.co != co
      modifies this`outs, this`ins, this`arcs, this`colors
      ensures Valid() && arcs == old(arcs) - {a} + {a.(co := co)}
    {
      var b := a.(co := co);
      Ends(a);
      Outs(a.from);
      Ins(a.to);
      ColorArcs(a.co);
      ColorArcs(co);
      var o := Replace(outs[a.from], a, b);
      var i := Replace(ins[a.to], a, b);
      var c := UncolorChain(a);
      var d := [b] + ChainOf(colors, co);
      Unseal();
      TightRecolored(states, outs, ins, colors, arcs, a, co, o, i, c);
      Relink(outs[a.from := o], ins[a.to := i], colors[a.co := c][co := d], arcs - {a} + {b});
    }

    /** `cparc`. */
    method CpArc(oa: Arc, from: nat, to: nat)
      requires Valid() && from in states && to in states
      modifies this`outs, this`ins, this`arcs, this`colors
      ensures Valid() && arcs == old(arcs) + {oa.(from := from, to := to)}
    {
      NewArc(oa.kind, oa.co, from, to);
    }

    /** `freestate`: the state has no arcs left. */
    method FreeState(s: nat)
      requires Valid() && s in states && !Flag(s)
      requires forall a | a in arcs :: a.from != s && a.to != s
      modifies this`states, this`outs, this`ins, this`tmp
      ensures Valid()
      ensures forall x :: x in states <==> x in old(states) && x != s
      ensures tmp == old(tmp) - {s}
    {
      Unseal();
      States();
      var left := Unlink(states, s);
      TightWithout(states, outs, ins, colors, arcs, s, left);
      states := left;
      outs, ins, tmp := outs - {s}, ins - {s}, tmp - {s};
      Seal();
    }

    /** `dropstate`: the arcs of a state go, then the state. */
    method DropState(s: nat)
      requires Valid() && s in states && !Flag(s)
      modifies this`states, this`outs, this`ins, this`tmp, this`arcs, this`colors
      ensures Valid() && arcs == old(arcs) - Into(old(arcs), s) - OutOf(old(arcs), s)
      ensures forall x :: x in states <==> x in old(states) && x != s
      ensures tmp == old(tmp) - {s}
    {
      while ins[s] != []
        invariant Valid() && states == old(states) && tmp == old(tmp)
        invariant arcs <= old(arcs) && forall a | a in old(arcs) - arcs :: a.to == s
        decreases arcs
      {
        Ins(s);
        FreeArc(ins[s][0]);
      }
      Ins(s);
      while outs[s] != []
        invariant Valid() && states == old(states) && tmp == old(tmp) && Into(arcs, s) == {}
        invariant arcs <= old(arcs) && forall a | a in old(arcs) - arcs :: a.to == s || a.from == s
        decreases arcs
      {
        Outs(s);
        FreeArc(outs[s][0]);
      }
      Outs(s);
      FreeState(s);
    }

    /** `moveins`: duplicates are suppressed on the way. */
    method MoveIns(x: nat, y: nat)
      requires Valid() && x in states && y in states && x != y
      modifies this`outs, this`ins, this`arcs, this`colors
      ensures Valid() && arcs == old(arcs) - Into(old(arcs), x) + Redirected(old(arcs), x, y)
    {
      ghost var done: set<Arc> := {};
      while ins[x] != []
        invariant Valid()
        invariant done <= Into(old(arcs), x) && Into(arcs, x) == Into(old(arcs), x) - done
        invariant arcs == old(arcs) - done + Redirected(done, x, y)
        decreases Into(arcs, x)
      {
        Ins(x);
        var a := ins[x][0];
        Ends(a);
        ghost var was := Into(arcs, x);
        CpArc(a, a.from, y);
        FreeArc(a);
        done := done + {a};
        assert Into(arcs, x) == was - {a};
      }
      Ins(x);
      assert Into(arcs, x) == {};
      assert done == Into(old(arcs), x);
      assert Redirected(done, x, y) == Redirected(old(arcs), x, y);
    }

    /** `copyins`. */
    method CopyIns(x: nat, y: nat)
      requires Valid() && x in states && y in states && x != y
      modifies this`outs, this`ins, this`arcs, this`colors
      ensures Valid() && arcs == old(arcs) + Redirected(old(arcs), x, y)
    {
      Ins(x);
      var chain := ins[x];
      for i := 0 to |chain|
        invariant Valid() && arcs == old(arcs) + Redirected(Elements(chain[..i]), x, y)
      {
        assert chain[..i + 1] == chain[..i] + [chain[i]];
        assert chain[i] in arcs;
        Ends(chain[i]);
        CpArc(chain[i], chain[i].from, y);
      }
      assert chain[..|chain|] == chain;
      assert Redirected(Elements(chain), x, y) == Redirected(old(arcs), x, y);
    }

    /** `moveouts`. */
    method MoveOuts(x: nat, y: nat)
      requires Valid() && x in states && y in states && x != y
      modifies this`outs, this`ins, this`arcs, this`colors
      ensures Valid() && arcs == old(arcs) - OutOf(old(arcs), x) + Resourced(old(arcs), x, y)
    {
      ghost var done: set<Arc> := {};
      while outs[x] != []
        invariant Valid()
        invariant done <= OutOf(old(arcs), x) && OutOf(arcs, x) == OutOf(old(arcs), x) - done
        invariant arcs == old(arcs) - done + Resourced(done, x, y)
        decreases OutOf(arcs, x)
      {
        Outs(x);
        var a := outs[x][0];
        Ends(a);
        ghost var was := OutOf(arcs, x);
        CpArc(a, y, a.to);
        FreeArc(a);
        done := done + {a};
        assert OutOf(arcs, x) == was - {a};
      }
      Outs(x);
      assert OutOf(arcs, x) == {};
      assert done == OutOf(old(arcs), x);
      assert Resourced(done, x, y) == Resourced(old(arcs), x, y);
    }

    /** `copyouts`. */
    method CopyOuts(x: nat, y: nat)
      requires Valid() && x in states && y in states && x != y
      modifies this`outs, this`ins, this`arcs, this`colors
      ensures Valid() && arcs == old(arcs) + Resourced(old(arcs), x, y)
    {
      Outs(x);
      var chain := outs[x];
      for i := 0 to |chain|
        invariant Valid() && arcs == old(arcs) + Resourced(Elements(chain[..i]), x, y)
      {
        assert chain[..i + 1] == chain[..i] + [chain[i]];
        assert chain[i] in arcs;
        Ends(chain[i]);
        CpArc(chain[i], y, chain[i].to);
      }
      assert chain[..|chain|] == chain;
      assert Resourced(Elements(chain), x, y) == Resourced(old(arcs), x, y);
    }
  }
}
