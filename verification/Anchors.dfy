/** What stands around a text: the false colors of `^` and `$` at its ends, with and without REG_NOTBOL and REG_NOTEOL,
    and lookahead (rege_dfa.c). */
module Anchors {
  import opened Cnfas
  import opened Nets
  import opened NfaMatch

  /** The false colors are different, and no character has them. */
  ghost predicate FalseColors(j: Job) {
    && |j.n.bos| == 2 && |j.n.eos| == 2 && j.n.bos[0] != j.n.bos[1] && j.n.eos[0] != j.n.eos[1]
    && j.n.bos[0] !in j.n.eos && j.n.bos[1] !in j.n.eos
    && forall i | 0 <= i < |j.v.text| :: j.v.cm(j.v.text[i]) !in j.n.bos && j.v.cm(j.v.text[i]) !in j.n.eos
  }

  /** Before p is the beginning of the string, a true one for c = 1 and one under REG_NOTBOL for c = 0. */
  ghost predicate AtBegin(j: Job, p: nat, c: nat) {
    p == 0 && if j.v.notbol then c == 0 else c == 1
  }

  /** After p is the end of the string, a true one for c = 1 and one under REG_NOTEOL for c = 0. */
  ghost predicate AtEnd(j: Job, p: nat, c: nat) {
    p == |j.v.text| && if j.v.noteol then c == 0 else c == 1
  }

  lemma ReadAtEnds(j: Job, p: nat, c: nat)
    requires FalseColors(j) && p <= |j.v.text| && c < 2
    ensures j.PrevColor(p) == j.n.bos[c] <==> AtBegin(j, p, c)
    ensures j.NextColor(p) == j.n.eos[c] <==> AtEnd(j, p, c)
  {}

  // ----- compacted NFAs

  /** Without lookahead constraints nothing is added to a state set. */
  lemma ClosurePlain(j: Job, p: nat, D: set<nat>)
    requires forall i, k | 0 <= i < |j.n.states| && 0 <= k < |j.n.states[i].outs| :: j.n.states[i].outs[k].co <= j.n.ncolors
    requires forall q | q in D :: q < |j.n.states|
    ensures j.Closure(p, D) == D
  {
    ClosureContains(j, p, D);
    ClosureLeast(j, p, D, D);
  }

  /** Everything leaves the start by color co. */
  ghost predicate Opens(n: Cnfa, co: nat) {
    n.pre < |n.states| && forall k | 0 <= k < |n.states[n.pre].outs| :: n.states[n.pre].outs[k].co == co
  }

  /** Everything enters the end by color co. */
  ghost predicate Closes(n: Cnfa, co: nat) {
    forall i, k | 0 <= i < |n.states| && 0 <= k < |n.states[i].outs| ::
      n.states[i].outs[k].to == n.post ==> n.states[i].outs[k].co == co
  }

  /** An NFA left at the start by bos[1] alone matches only at the true beginning of the string, one left by bos[0]
      only at a beginning that is not one of a line. */
  lemma OpensAtBegin(j: Job, c: nat, b: nat, e: nat)
    requires FalseColors(j) && c < 2 && Opens(j.n, j.n.bos[c]) && j.Matches(b, e)
    ensures b == 0 && (j.v.notbol <==> c == 0)
  {
    if j.PrevColor(b) != j.n.bos[c] {
      assert j.Direct({j.n.pre}, j.PrevColor(b)) == {};
      ClosureEmpty(j, b);
      DeadStates(j, b, b, e);
    }
    ReadAtEnds(j, b, c);
  }

  /** The same at the end. */
  lemma ClosesAtEnd(j: Job, lim: nat, c: nat, b: nat, e: nat)
    requires FalseColors(j) && j.n.Wf(lim) && c < 2 && Closes(j.n, j.n.eos[c]) && j.Matches(b, e)
    ensures e == |j.v.text| && (j.v.noteol <==> c == 0)
  {
    if j.NextColor(e) != j.n.eos[c] {
      ClosureNoPost(j, lim, if e < |j.v.text| then e + 1 else e, j.Direct(j.States(b, e), j.NextColor(e)));
    }
    ReadAtEnds(j, e, c);
  }

  /** The compacted NFA of `^a$`, with the constraints turned into bos[c] and eos[d]. */
  function OneLine(ncolors: nat, bos: seq<nat>, eos: seq<nat>, c: nat, a: nat, d: nat): Cnfa
    requires |bos| == 2 && |eos| == 2 && c < 2 && d < 2
  {
    Cnfa([CState(true, [Carc(bos[c], 1)]), CState(false, [Carc(a, 2)]), CState(false, [Carc(eos[d], 3)]), CState(false, [])],
         ncolors, false, 0, 3, bos, eos)
  }

  ghost predicate IsOneLine(j: Job, c: nat, a: nat, d: nat) {
    && FalseColors(j) && c < 2 && d < 2 && j.n == OneLine(j.n.ncolors, j.n.bos, j.n.eos, c, a, d)
    && j.n.bos[c] <= j.n.ncolors && a <= j.n.ncolors && j.n.eos[d] <= j.n.ncolors
    && a !in j.n.bos && a !in j.n.eos
  }

  /** One step of it. */
  lemma OneStep(j: Job, c: nat, a: nat, d: nat, i: nat, co: nat, p: nat)
    requires IsOneLine(j, c, a, d) && i < 3
    ensures j.Step({i}, co, p) == if co == [j.n.bos[c], a, j.n.eos[d]][i] then {i + 1} else {}
    ensures j.Step({}, co, p) == {}
  {
    assert j.n.states[i].outs == [Carc([j.n.bos[c], a, j.n.eos[d]][i], i + 1)];
    var D := j.Direct({i}, co);
    if co == [j.n.bos[c], a, j.n.eos[d]][i] {
      assert j.n.states[i].outs[0].to in D;
    }
    assert D == if co == [j.n.bos[c], a, j.n.eos[d]][i] then {i + 1} else {};
    ClosurePlain(j, p, D);
    DirectEmpty(j, co);
    ClosureEmpty(j, p);
  }

  /** `^a$` matches exactly the string of one such character, at ends that are those of a line for bos[1] and eos[1], and
      at ends that are not for bos[0] and eos[0]. */
  lemma OneLineMatches(j: Job, c: nat, a: nat, d: nat, b: nat, e: nat)
    requires IsOneLine(j, c, a, d) && b <= e <= |j.v.text|
    ensures j.Matches(b, e) <==>
              b == 0 && e == 1 == |j.v.text| && j.v.cm(j.v.text[0]) == a && AtBegin(j, b, c) && AtEnd(j, e, d)
  {
    ReadAtEnds(j, b, c);
    ReadAtEnds(j, e, d);
    OneStep(j, c, a, d, 0, j.PrevColor(b), b);
    assert j.n.pre == 0 && j.n.post == 3;
    var p := if e < |j.v.text| then e + 1 else e;
    if e == b {
      OneStep(j, c, a, d, 1, j.NextColor(e), p);
    } else {
      OneStep(j, c, a, d, 1, j.v.cm(j.v.text[b]), b + 1);
      if e == b + 1 {
        OneStep(j, c, a, d, 2, j.NextColor(e), p);
      } else {
        OneStep(j, c, a, d, 2, j.v.cm(j.v.text[b + 1]), b + 2);
        assert j.States(b, b + 1) <= {2};
        assert j.States(b, b + 2) == {};
        DeadStates(j, b, b + 2, e);
      }
    }
  }

  // ----- lookahead

  /** Arcs of all colors. */
  function Rainbow(ncolors: nat, to: nat): seq<Carc> {
    seq(ncolors, i requires 0 <= i < ncolors => Carc(i, to))
  }

  /** The compacted NFA of one character of color a, whatever stands around it. */
  function OneChar(ncolors: nat, bos: seq<nat>, eos: seq<nat>, a: nat): Cnfa {
    Cnfa([CState(true, Rainbow(ncolors, 1)), CState(false, [Carc(a, 2)]), CState(false, Rainbow(ncolors, 3)), CState(false, [])],
         ncolors, false, 0, 3, bos, eos)
  }

  ghost predicate IsOneChar(j: Job, a: nat) {
    && |j.n.bos| == 2 && |j.n.eos| == 2 && j.n == OneChar(j.n.ncolors, j.n.bos, j.n.eos, a) && a < j.n.ncolors
    && j.n.bos[0] < j.n.ncolors && j.n.bos[1] < j.n.ncolors && j.n.eos[0] < j.n.ncolors && j.n.eos[1] < j.n.ncolors
    && forall i | 0 <= i < |j.v.text| :: j.v.cm(j.v.text[i]) < j.n.ncolors
  }

  lemma CharStep(j: Job, a: nat, i: nat, co: nat, p: nat)
    requires IsOneChar(j, a) && i < 4 && co < j.n.ncolors
    ensures j.Step({i}, co, p) == if i == 3 || (i == 1 && co != a) then {} else {i + 1}
  {
    var D := j.Direct({i}, co);
    assert i == 1 ==> j.n.states[i].outs == [Carc(a, 2)];
    assert i == 0 || i == 2 ==> j.n.states[i].outs[co] == Carc(co, i + 1);
    assert i == 1 && co == a ==> j.n.states[i].outs[0].to in D;
    assert i == 0 || i == 2 ==> j.n.states[i].outs[co].to in D;
    assert D == if i == 3 || (i == 1 && co != a) then {} else {i + 1};
    ClosurePlain(j, p, D);
  }

  lemma OneCharMatches(j: Job, a: nat, b: nat, e: nat)
    requires IsOneChar(j, a) && b <= e <= |j.v.text|
    ensures j.Matches(b, e) <==> e == b + 1 && j.v.cm(j.v.text[b]) == a
  {
    var p := if e < |j.v.text| then e + 1 else e;
    CharStep(j, a, 0, j.PrevColor(b), b);
    assert j.n.pre == 0 && j.n.post == 3 && j.States(b, b) == {1};
    if e == b {
      CharStep(j, a, 1, j.NextColor(e), p);
    } else {
      CharStep(j, a, 1, j.v.cm(j.v.text[b]), b + 1);
      if j.v.cm(j.v.text[b]) != a {
        assert j.States(b, b + 1) == {};
        DeadStates(j, b, b + 1, e);
      } else {
        TwoChars(j, a, b, e);
      }
    }
  }

  lemma TwoChars(j: Job, a: nat, b: nat, e: nat)
    requires IsOneChar(j, a) && b < e <= |j.v.text| && j.States(b, b + 1) == {2}
    ensures j.Matches(b, e) <==> e == b + 1
  {
    var p := if e < |j.v.text| then e + 1 else e;
    if e == b + 1 {
      CharStep(j, a, 2, j.NextColor(e), p);
    } else {
      CharStep(j, a, 2, j.v.cm(j.v.text[b + 1]), b + 2);
      assert j.States(b, b + 2) == {3};
      if e == b + 2 {
        CharStep(j, a, 3, j.NextColor(e), p);
      } else {
        CharStep(j, a, 3, j.v.cm(j.v.text[b + 2]), b + 3);
        assert j.States(b, b + 3) == {};
        DeadStates(j, b, b + 3, e);
      }
    }
  }

  /** Lookahead for one character asks whether that character comes next, and negative lookahead whether it does not,
      at the end of the string as elsewhere. */
  lemma LookaheadMeans(v: Vars, k: nat, a: nat, p: nat)
    requires k < |v.lacons| && IsOneChar(Job(v, v.lacons[k].cnfa, Oracle(v, k)), a)
    ensures v.lacons[k].positive ==> (LaconHolds(v, k, p) <==> p < |v.text| && v.cm(v.text[p]) == a)
    ensures !v.lacons[k].positive ==> (LaconHolds(v, k, p) <==> p >= |v.text| || v.cm(v.text[p]) != a)
  {
    var j := Job(v, v.lacons[k].cnfa, Oracle(v, k));
    forall e: nat | p <= e <= |v.text|
      ensures j.Matches(p, e) <==> e == p + 1 && v.cm(v.text[p]) == a
    {
      OneCharMatches(j, a, p, e);
    }
    if p < |v.text| && v.cm(v.text[p]) == a {
      assert j.Matches(p, p + 1);
    }
  }

  /** The compacted NFA of a character of color a with lookahead constraint k after it. */
  function CharAhead(ncolors: nat, bos: seq<nat>, eos: seq<nat>, a: nat, k: nat): Cnfa {
    Cnfa([CState(true, Rainbow(ncolors, 1)), CState(false, [Carc(a, 2)]), CState(false, [Carc(ncolors + k, 3)]),
          CState(false, Rainbow(ncolors, 4)), CState(false, [])], ncolors, true, 0, 4, bos, eos)
  }

  ghost predicate IsCharAhead(j: Job, a: nat, k: nat) {
    && |j.n.bos| == 2 && |j.n.eos| == 2 && j.n == CharAhead(j.n.ncolors, j.n.bos, j.n.eos, a, k) && a < j.n.ncolors && k > 0
    && j.n.bos[0] < j.n.ncolors && j.n.bos[1] < j.n.ncolors && j.n.eos[0] < j.n.ncolors && j.n.eos[1] < j.n.ncolors
    && forall i | 0 <= i < |j.v.text| :: j.v.cm(j.v.text[i]) < j.n.ncolors
  }

  lemma AheadEdge(j: Job, a: nat, k: nat, p: nat, x: nat, y: nat)
    requires IsCharAhead(j, a, k)
    ensures j.LaconEdge(p, x, y) <==> x == 2 && y == 3 && j.la(k, p)
  {
    assert j.n.states[2].outs == [Carc(j.n.ncolors + k, 3)] && j.n.states[1].outs == [Carc(a, 2)];
    if x == 2 && y == 3 && j.la(k, p) {
      assert j.LaconArc(p, 2, 0, 3);
    }
  }

  /** Behind state 2 the constraint is asked for at that position. */
  lemma AheadClosure(j: Job, a: nat, k: nat, p: nat, D: set<nat>)
    requires IsCharAhead(j, a, k) && forall q | q in D :: q < 5
    ensures j.Closure(p, D) == if 2 in D && j.la(k, p) then D + {3} else D
  {
    var T := if 2 in D && j.la(k, p) then D + {3} else D;
    ClosureContains(j, p, D);
    forall x, y | x in T && j.LaconEdge(p, x, y)
      ensures y in T
    {
      AheadEdge(j, a, k, p, x, y);
    }
    ClosureLeast(j, p, D, T);
    if 2 in D && j.la(k, p) {
      AheadEdge(j, a, k, p, 2, 3);
      ClosureClosed(j, p, D, 2, 3);
    }
  }

  lemma AheadDirect(j: Job, a: nat, k: nat, S: set<nat>, co: nat)
    requires IsCharAhead(j, a, k) && co < j.n.ncolors
    ensures j.Direct(S, co) == (if 0 in S then {1} else {}) + (if 1 in S && co == a then {2} else {}) + (if 3 in S then {4} else {})
  {
    assert j.n.states[1].outs == [Carc(a, 2)] && j.n.states[2].outs == [Carc(j.n.ncolors + k, 3)];
    assert j.n.states[0].outs[co] == Carc(co, 1) && j.n.states[3].outs[co] == Carc(co, 4);
    var D := j.Direct(S, co);
    assert 0 in S ==> j.n.states[0].outs[co].to in D;
    assert 1 in S && co == a ==> j.n.states[1].outs[0].to in D;
    assert 3 in S ==> j.n.states[3].outs[co].to in D;
  }

  /** What is reached from state i by a character of color co, ending at p. */
  ghost function AheadNext(j: Job, a: nat, k: nat, i: nat, co: nat, p: nat): set<nat> {
    match i
    case 0 => {1}
    case 1 => if co != a then {} else if j.la(k, p) then {2, 3} else {2}
    case 3 => {4}
    case _ => {}
  }

  lemma AheadStep(j: Job, a: nat, k: nat, i: nat, co: nat, p: nat)
    requires IsCharAhead(j, a, k) && co < j.n.ncolors && i != 2
    ensures j.Step({i}, co, p) == AheadNext(j, a, k, i, co, p)
  {
    AheadDirect(j, a, k, {i}, co);
    AheadClosure(j, a, k, p, j.Direct({i}, co));
  }

  lemma AheadLast(j: Job, a: nat, k: nat, S: set<nat>, D: set<nat>, co: nat, p: nat)
    requires IsCharAhead(j, a, k) && co < j.n.ncolors && 0 !in S && 1 !in S && D == if 3 in S then {4} else {}
    ensures j.Step(S, co, p) == D
  {
    AheadDirect(j, a, k, S, co);
    assert j.Direct(S, co) == D;
    AheadClosure(j, a, k, p, D);
  }

  /** A constraint after a character is asked for right after it. */
  lemma ConstraintAfter(j: Job, a: nat, k: nat, b: nat, e: nat)
    requires IsCharAhead(j, a, k) && b <= e <= |j.v.text|
    ensures j.Matches(b, e) <==> e == b + 1 && j.v.cm(j.v.text[b]) == a && j.la(k, e)
  {
    var p := if e < |j.v.text| then e + 1 else e;
    assert j.n.pre == 0 && j.n.post == 4;
    AheadStep(j, a, k, 0, j.PrevColor(b), b);
    assert j.States(b, b) == {1};
    if e == b {
      AheadStep(j, a, k, 1, j.NextColor(e), p);
    } else {
      AheadStep(j, a, k, 1, j.v.cm(j.v.text[b]), b + 1);
      if j.v.cm(j.v.text[b]) != a {
        assert j.States(b, b + 1) == {};
        DeadStates(j, b, b + 1, e);
      } else {
        AheadRest(j, a, k, b, e, j.States(b, b + 1));
      }
    }
  }

  lemma AheadRest(j: Job, a: nat, k: nat, b: nat, e: nat, S: set<nat>)
    requires IsCharAhead(j, a, k) && b < e <= |j.v.text| && S == j.States(b, b + 1)
    requires 0 !in S && 1 !in S && 4 !in S && (3 in S <==> j.la(k, b + 1))
    ensures j.Matches(b, e) <==> e == b + 1 && j.la(k, e)
  {
    var D: set<nat> := if 3 in S then {4} else {};
    if e == b + 1 {
      AheadLast(j, a, k, S, D, j.NextColor(e), if e < |j.v.text| then e + 1 else e);
    } else {
      AheadLast(j, a, k, S, D, j.v.cm(j.v.text[b + 1]), b + 2);
      assert j.States(b, b + 2) == D;
      AheadEnd(j, a, k, b, e);
    }
  }

  lemma AheadEnd(j: Job, a: nat, k: nat, b: nat, e: nat)
    requires IsCharAhead(j, a, k) && b + 2 <= e <= |j.v.text| && (j.States(b, b + 2) == {4} || j.States(b, b + 2) == {})
    ensures !j.Matches(b, e)
  {
    if j.States(b, b + 2) == {} {
      DeadStates(j, b, b + 2, e);
    } else if e == b + 2 {
      AheadStep(j, a, k, 4, j.NextColor(e), if e < |j.v.text| then e + 1 else e);
    } else {
      AheadStep(j, a, k, 4, j.v.cm(j.v.text[b + 2]), b + 3);
      assert j.States(b, b + 3) == {};
      DeadStates(j, b, b + 3, e);
    }
  }

  // ----- NFAs under construction

  /** What constraints demand inside an NFA: `^` and `$` the place before the first character of the text, or after its
      last one, and there a beginning or an end of the string; lookahead what holds at the position it is asked for. */
  lemma ConstraintsMean(g: Net, j: Job, a: Arc, b: nat, e: nat, p: nat)
    requires FalseColors(j) && g.bos == j.n.bos && g.eos == j.n.eos && b <= e <= |j.v.text| && a.co < 2 && p <= e - b + 2
    ensures a.kind == CARET ==> (Holds(g, SubjectOf(j, b, e), a, p) <==> p == 1 && b == 0 && (j.v.notbol <==> a.co == 0))
    ensures a.kind == LACON && 1 <= p <= e - b + 1 ==> (Holds(g, SubjectOf(j, b, e), a, p) <==> j.la(a.co, b + p - 1))
    ensures a.kind == DOLLAR ==>
              (Holds(g, SubjectOf(j, b, e), a, p) <==> p == e - b + 1 && e == |j.v.text| && (j.v.noteol <==> a.co == 0))
  {
    var s := SubjectOf(j, b, e);
    ReadAtEnds(j, b, a.co);
    ReadAtEnds(j, e, a.co);
    assert s.x[0] == j.PrevColor(b) && s.x[e - b + 1] == j.NextColor(e);
    assert forall i | 0 < i <= e - b :: s.x[i] == j.v.cm(j.v.text[b + i - 1]);
    assert j.PrevColor(b) !in j.n.eos && j.NextColor(e) !in j.n.bos;
    assert s.la(a.co, p) <==> j.la(a.co, TextPos(j, b, p));
  }

  /** An NFA whose arcs out of the start are all `^` arcs of number c matches only at such a beginning. */
  lemma CaretAtBegin(g: Net, j: Job, c: nat, b: nat, e: nat)
    requires FalseColors(j) && g.bos == j.n.bos && g.eos == j.n.eos && c < 2 && g.pre != g.post
    requires forall a | a in g.arcs && a.from == g.pre :: a.kind == CARET && a.co == c
    requires b <= e <= |j.v.text| && Accepts(g, SubjectOf(j, b, e))
    ensures b == 0 && (j.v.notbol <==> c == 0)
  {
    var s := SubjectOf(j, b, e);
    ReadAtEnds(j, b, c);
    if s.x[0] != g.bos[c] {
      var inv := (x: nat, p: nat) => x == g.pre && p == 0;
      ReachedInduction(g, s, Start(g), inv);
    }
  }

  /** An NFA whose arcs into the end are all `$` arcs of number c likewise. */
  lemma DollarAtEnd(g: Net, j: Job, c: nat, b: nat, e: nat)
    requires FalseColors(j) && g.bos == j.n.bos && g.eos == j.n.eos && c < 2 && g.pre != g.post
    requires forall a | a in g.arcs && a.to == g.post :: a.kind == DOLLAR && a.co == c
    requires b <= e <= |j.v.text| && Accepts(g, SubjectOf(j, b, e))
    ensures e == |j.v.text| && (j.v.noteol <==> c == 0)
  {
    var s := SubjectOf(j, b, e);
    ReadAtEnds(j, e, c);
    var a, q := ReachedLast(g, s, Start(g), g.post, |s.x|);
    assert s.x[|s.x| - 1] == j.NextColor(e);
  }

  /** The NFA of `^a$`. */
  function LineNet(bos: seq<nat>, eos: seq<nat>, c: nat, a: nat, d: nat): Net {
    Net({Arc(CARET, c, 0, 1), Arc(PLAIN, a, 1, 2), Arc(DOLLAR, d, 2, 3)}, 0, 3, bos, eos)
  }

  /** Its way through a subject. */
  lemma LineRead(g: Net, s: Subject, bos: seq<nat>, eos: seq<nat>, c: nat, a: nat, d: nat)
    requires |bos| == 2 && |eos| == 2 && c < 2 && d < 2 && g == LineNet(bos, eos, c, a, d) && Accepts(g, s)
    ensures s.x == [bos[c], a, eos[d]]
  {
    var read := [bos[c], a, eos[d]];
    var inv := (x: nat, p: nat) => x == p && p <= 3 && p <= |s.x| && s.x[..p] == read[..p];
    forall t: Arc, q: nat, p: nat {:trigger Fires(g, s, t, q, p)} |
      t in g.arcs && Reached(g, s, Start(g), t.from, q) && inv(t.from, q) && Fires(g, s, t, q, p)
      ensures inv(t.to, p)
    {
      assert s.x[q] == read[q];
      assert s.x[..q + 1] == s.x[..q] + [s.x[q]];
      assert read[..q + 1] == read[..q] + [read[q]];
    }
    ReachedInduction(g, s, Start(g), inv);
    assert s.x[..3] == s.x && read[..3] == read;
  }

  /** It accepts exactly the string of one such character at such ends. */
  lemma LineNetAccepts(j: Job, c: nat, a: nat, d: nat, b: nat, e: nat)
    requires FalseColors(j) && c < 2 && d < 2 && a !in j.n.bos && a !in j.n.eos && b <= e <= |j.v.text|
    ensures Accepts(LineNet(j.n.bos, j.n.eos, c, a, d), SubjectOf(j, b, e)) <==>
              b == 0 && e == 1 == |j.v.text| && j.v.cm(j.v.text[0]) == a && AtBegin(j, b, c) && AtEnd(j, e, d)
  {
    var g, s := LineNet(j.n.bos, j.n.eos, c, a, d), SubjectOf(j, b, e);
    ReadAtEnds(j, b, c);
    ReadAtEnds(j, e, d);
    assert |s.x| == e - b + 2 && s.x[0] == j.PrevColor(b) && s.x[|s.x| - 1] == j.NextColor(e);
    assert b < e ==> s.x[1] == j.v.cm(j.v.text[b]);
    if Accepts(g, s) {
      LineRead(g, s, j.n.bos, j.n.eos, c, a, d);
    }
    if b == 0 && e == 1 == |j.v.text| && j.v.cm(j.v.text[0]) == a && AtBegin(j, b, c) && AtEnd(j, e, d) {
      ReachedHere(g, s, Start(g));
      ReachedStep(g, s, Start(g), Arc(CARET, c, 0, 1), 0, 1);
      ReachedStep(g, s, Start(g), Arc(PLAIN, a, 1, 2), 1, 2);
      ReachedStep(g, s, Start(g), Arc(DOLLAR, d, 2, 3), 2, 3);
    }
  }
}
