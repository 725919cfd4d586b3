/** Automata of two or three states have too small a cache for the replacement argument; their state sets are so few
    that the cache never fills up. */
module DfaSmall {
  import opened Cnfas
  import opened Dfas

  lemma StepAvoidsPre(j: Job, lim: nat, S: set<nat>, co: nat, p: nat)
    requires j.n.Wf(lim) && j.n.PreUnentered()
    ensures j.n.pre !in j.Step(S, co, p)
  {
    var D := j.Direct(S, co);
    var T := j.Closure(p, D) - {j.n.pre};
    ClosureContains(j, p, D);
    forall x, y | x in T && j.LaconEdge(p, x, y)
      ensures y in T
    {
      ClosureClosed(j, p, D, x, y);
    }
    ClosureLeast(j, p, D, T);
  }

  lemma StepKeepsLoops(j: Job, lim: nat, S: set<nat>, co: nat, p: nat)
    requires j.n.Wf(lim) && j.n.LoopsOrPost() && co < j.n.ncolors
    requires j.n.pre in S || S == {j.n.post}
    requires j.Direct(S, co) != {}
    ensures j.n.pre in j.Step(S, co, p) || j.Step(S, co, p) == {j.n.post}
  {
    var D := j.Direct(S, co);
    ClosureContains(j, p, D);
    if j.n.PreLoop(co) {
      if j.n.pre !in S {
        assert false;   // nothing leaves the post state
      }
      assert j.n.pre in D;
    } else {
      assert D == {j.n.post};
      ClosureLeast(j, p, D, D);
    }
  }

  /** Every nonempty successor of a set of the family is in the family. */
  lemma StepFamily(j: Job, lim: nat, S: set<nat>, co: nat, p: nat)
    requires j.n.Wf(lim) && co < j.n.ncolors && InFamily(j.n, S) && j.Direct(S, co) != {}
    ensures InFamily(j.n, j.Step(S, co, p))
  {
    if j.n.PreUnentered() {
      StepAvoidsPre(j, lim, S, co, p);
    } else if |j.n.states| < 4 {
      StepKeepsLoops(j, lim, S, co, p);
    }
  }

  lemma {:induction false} DistinctCount<T>(s: seq<T>, F: set<T>)
    requires forall i | 0 <= i < |s| :: s[i] in F
    requires forall i, k | 0 <= i < k < |s| :: s[i] != s[k]
    ensures |s| <= |F|
    decreases |s|
  {
    if |s| > 0 {
      var m := |s| - 1;
      DistinctCount(s[..m], F - {s[m]});
    }
  }

  ghost predicate Possible(n: Cnfa, uv: BitVector) {
    |uv| == |n.states| && Bits(uv) != {} && InFamily(n, Bits(uv))
  }

  /** The bit vector with the bits a, b and, of three, c. */
  function Vec(len: nat, a: bool, b: bool, c: bool): BitVector
    requires 2 <= len <= 3
  {
    if len == 2 then [a, b] else [a, b, c]
  }

  /** Bit vector with bit `pre` equal to x and the others y, z in order. */
  function Around(len: nat, pre: nat, x: bool, y: bool, z: bool): BitVector
    requires 2 <= len <= 3 && pre < len
  {
    if pre == 0 then Vec(len, x, y, z) else if pre == 1 then Vec(len, y, x, z) else Vec(len, y, z, x)
  }

  lemma AroundAll(n: Cnfa, uv: BitVector)
    requires 2 <= |n.states| <= 3 && n.pre < |n.states| && |uv| == |n.states|
    ensures exists x, y, z :: uv == Around(|n.states|, n.pre, x, y, z)
  {
    if |uv| == 2 {
      assert uv == [uv[0], uv[1]];
      assert uv == if n.pre == 0 then Around(2, 0, uv[0], uv[1], false) else Around(2, 1, uv[1], uv[0], false);
    } else {
      assert uv == [uv[0], uv[1], uv[2]];
      assert uv == if n.pre == 0 then Around(3, 0, uv[0], uv[1], uv[2])
                   else if n.pre == 1 then Around(3, 1, uv[1], uv[0], uv[2])
                   else Around(3, 2, uv[2], uv[0], uv[1]);
    }
  }

  lemma AroundPre(n: Cnfa, x: bool, y: bool, z: bool)
    requires 2 <= |n.states| <= 3 && n.pre < |n.states|
    ensures x <==> n.pre in Bits(Around(|n.states|, n.pre, x, y, z))
    ensures Bits(Around(|n.states|, n.pre, x, y, z)) == {n.pre} ==> x && !y && (|n.states| == 3 ==> !z)
    ensures !x && !y && !z ==> Bits(Around(|n.states|, n.pre, x, y, z)) == {}
  {
    var uv := Around(|n.states|, n.pre, x, y, z);
    var B := Bits(uv);
    assert 0 in B <==> uv[0];
    assert 1 in B <==> uv[1];
    assert |n.states| == 3 ==> (2 in B <==> uv[2]);
  }

  /** Few enough distinct state sets for all of them to fit the cache at once. */
  lemma FewSets(n: Cnfa, lim: nat, vs: seq<BitVector>)
    requires n.Wf(lim) && |n.states| <= 3
    requires forall i | 0 <= i < |vs| :: Possible(n, vs[i])
    requires forall i, k | 0 <= i < k < |vs| :: vs[i] != vs[k]
    ensures |vs| <= 2 * |n.states|
  {
    var len, pre := |n.states|, n.pre;
    var without := {Around(len, pre, false, true, false), Around(len, pre, false, false, true), Around(len, pre, false, true, true)};
    var within := {Around(len, pre, true, true, false), Around(len, pre, true, false, true), Around(len, pre, true, true, true)};
    var alone := Around(len, pre, true, false, false);
    var post := seq(len, i => i == n.post);
    var F := if n.PreUnentered() then without + {alone} else within + {alone, post};
    forall i | 0 <= i < |vs|
      ensures vs[i] in F
    {
      AroundAll(n, vs[i]);
      var x, y, z :| vs[i] == Around(len, pre, x, y, z);
      AroundPre(n, x, y, z);
      if Bits(vs[i]) == {n.post} {
        assert forall k | 0 <= k < len :: vs[i][k] <==> k in Bits(vs[i]);
        assert vs[i] == post;
      }
      if len == 2 {
        assert Around(2, pre, x, y, z) == Around(2, pre, x, y, !z);
      }
    }
    DistinctCount(vs, F);
    assert |without| <= 3 && |within| <= 3;
    if len == 2 {
      assert Around(2, pre, true, false, true) == alone;
      assert Around(2, pre, true, true, false) == Around(2, pre, true, true, true);
      assert F <= {Around(2, pre, false, false, true), Around(2, pre, true, true, true), Around(2, pre, false, true, false), alone} + {post};
    }
  }
}
