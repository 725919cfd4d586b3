/** NFAs under construction as plain graphs (regguts.h), and the language of one: acceptance of a text together with
    the characters before and after it. */
module Nets {

  /** Types of arc: a color, the constraints `^`, `$`, AHEAD and BEHIND, a lookahead constraint, and the empty
      transition. */
  datatype Kind = PLAIN | CARET | DOLLAR | AHEAD | BEHIND | LACON | EMPTY

  datatype Arc = Arc(kind: Kind, co: nat, from: nat, to: nat)

  /** An NFA: its arcs, its start and end, and the false colors of the ends of the string. */
  datatype Net = Net(arcs: set<Arc>, pre: nat, post: nat, bos: seq<nat>, eos: seq<nat>)

  /** What an NFA reads: the colors from the character before the text (or a bos color) up to the character after it
      (or an eos color), and the lookahead constraints, `la(k, p)` saying whether constraint k holds before character
      p. */
  datatype Subject = Subject(x: seq<nat>, la: (nat, nat) -> bool)

  function Color(co: seq<nat>, k: nat): nat {
    if k < |co| then co[k] else 0
  }

  ghost predicate Behind(s: Subject, p: nat, co: nat) {
    0 < p <= |s.x| && s.x[p - 1] == co
  }

  ghost predicate Ahead(s: Subject, p: nat, co: nat) {
    p < |s.x| && s.x[p] == co
  }

  /** The arc reads a character: besides PLAIN arcs, `^` does so next to the start, `$` next to the end. */
  predicate Reads(g: Net, a: Arc) {
    a.kind == PLAIN || (a.kind == CARET && a.from == g.pre) || (a.kind == DOLLAR && a.to == g.post)
  }

  /** The color it reads. */
  function Read(g: Net, a: Arc): nat {
    match a.kind
    case CARET => Color(g.bos, a.co)
    case DOLLAR => Color(g.eos, a.co)
    case _ => a.co
  }

  /** What an arc that reads nothing demands of the position it is taken at. */
  ghost predicate Holds(g: Net, s: Subject, a: Arc, p: nat) {
    match a.kind
    case PLAIN => false
    case CARET => Behind(s, p, Color(g.bos, a.co))
    case DOLLAR => Ahead(s, p, Color(g.eos, a.co))
    case AHEAD => Ahead(s, p, a.co)
    case BEHIND => Behind(s, p, a.co)
    case LACON => s.la(a.co, p)
    case EMPTY => true
  }

  /** The arc can be taken from position q to position p. */
  ghost predicate Fires(g: Net, s: Subject, a: Arc, q: nat, p: nat) {
    if Reads(g, a) then p == q + 1 && Ahead(s, q, Read(g, a))
    else p == q && Holds(g, s, a, p)
  }

  /** A state at a position. */
  datatype Config = Config(state: nat, pos: nat)

  ghost predicate Enters(g: Net, s: Subject, c: Config, n: nat, a: Arc, q: nat, x: nat, p: nat)
    decreases n, 1
  {
    a in g.arcs && a.to == x && Fires(g, s, a, q, p) && Reach(g, s, c, n, a.from, q)
  }

  /** From configuration c, state x is reached at position p within n arcs. */
  ghost predicate Reach(g: Net, s: Subject, c: Config, n: nat, x: nat, p: nat)
    decreases n, 0
  {
    Config(x, p) == c || exists m: nat, a: Arc, q: nat | m < n :: Enters(g, s, c, m, a, q, x, p)
  }

  ghost predicate Reached(g: Net, s: Subject, c: Config, x: nat, p: nat) {
    exists n: nat :: Reach(g, s, c, n, x, p)
  }

  function Start(g: Net): Config {
    Config(g.pre, 0)
  }

  ghost predicate Accepts(g: Net, s: Subject) {
    Reached(g, s, Start(g), g.post, |s.x|)
  }

  ghost predicate SameLanguage(g: Net, h: Net) {
    forall s: Subject :: Accepts(g, s) <==> Accepts(h, s)
  }

  // ----- reachability

  lemma ReachedHere(g: Net, s: Subject, c: Config)
    ensures Reached(g, s, c, c.state, c.pos)
  {
    assert Reach(g, s, c, 0, c.state, c.pos);
  }

  lemma ReachedStep(g: Net, s: Subject, c: Config, a: Arc, q: nat, p: nat)
    requires a in g.arcs && Reached(g, s, c, a.from, q) && Fires(g, s, a, q, p)
    ensures Reached(g, s, c, a.to, p)
  {
    var n: nat :| Reach(g, s, c, n, a.from, q);
    assert Enters(g, s, c, n, a, q, a.to, p);
    assert Reach(g, s, c, n + 1, a.to, p);
  }

  /** How a configuration other than the first is reached. */
  lemma ReachedLast(g: Net, s: Subject, c: Config, x: nat, p: nat) returns (a: Arc, q: nat)
    requires Reached(g, s, c, x, p) && Config(x, p) != c
    ensures a in g.arcs && a.to == x && Reached(g, s, c, a.from, q) && Fires(g, s, a, q, p)
  {
    var n: nat :| Reach(g, s, c, n, x, p);
    a, q := ReachLast(g, s, c, n, x, p);
  }

  lemma ReachLast(g: Net, s: Subject, c: Config, n: nat, x: nat, p: nat) returns (a: Arc, q: nat)
    requires Reach(g, s, c, n, x, p) && Config(x, p) != c
    ensures a in g.arcs && a.to == x && Reached(g, s, c, a.from, q) && Fires(g, s, a, q, p)
  {
    var m: nat, b: Arc, r: nat :| m < n && Enters(g, s, c, m, b, r, x, p);
    assert Reach(g, s, c, m, b.from, r);
    a, q := b, r;
  }

  /** What holds at first and is kept by every arc taken. */
  ghost predicate Inductive(g: Net, s: Subject, c: Config, inv: (nat, nat) -> bool) {
    && inv(c.state, c.pos)
    && forall a: Arc, q: nat, p: nat {:trigger Fires(g, s, a, q, p)} |
         a in g.arcs && Reached(g, s, c, a.from, q) && inv(a.from, q) && Fires(g, s, a, q, p) :: inv(a.to, p)
  }

  lemma {:induction false} ReachInduction(g: Net, s: Subject, c: Config, inv: (nat, nat) -> bool, n: nat, x: nat, p: nat)
    requires Inductive(g, s, c, inv) && Reach(g, s, c, n, x, p)
    ensures inv(x, p)
    decreases n
  {
    if Config(x, p) != c {
      var m: nat, a: Arc, q: nat :| m < n && Enters(g, s, c, m, a, q, x, p);
      ReachInduction(g, s, c, inv, m, a.from, q);
      assert Reached(g, s, c, a.from, q);
    }
  }

  /** It holds wherever the NFA can get. */
  lemma ReachedInduction(g: Net, s: Subject, c: Config, inv: (nat, nat) -> bool)
    requires Inductive(g, s, c, inv)
    ensures forall x: nat, p: nat | Reached(g, s, c, x, p) :: inv(x, p)
  {
    forall x: nat, p: nat | Reached(g, s, c, x, p)
      ensures inv(x, p)
    {
      var n: nat :| Reach(g, s, c, n, x, p);
      ReachInduction(g, s, c, inv, n, x, p);
    }
  }

  // ----- shape

  /** What construction keeps true of an NFA's graph: nothing enters the start or leaves the end; next to them there
      are only arcs that read, and none joins the two; the false colors appear nowhere else. */
  ghost predicate Shaped(g: Net) {
    && g.pre != g.post && |g.bos| == 2 && |g.eos| == 2
    && g.bos[0] != g.bos[1] && g.eos[0] != g.eos[1] && g.bos[0] !in g.eos && g.bos[1] !in g.eos
    && forall a | a in g.arcs :: ArcShaped(g, a)
  }

  ghost predicate ArcShaped(g: Net, a: Arc) {
    && a.to != g.pre && a.from != g.post && (a.from == g.pre ==> a.to != g.post)
    && (a.from == g.pre ==> a.kind == PLAIN || a.kind == CARET)
    && (a.to == g.post ==> a.kind == PLAIN || a.kind == DOLLAR)
    && (a.kind == CARET || a.kind == DOLLAR ==> a.co < 2)
    && (a.kind == AHEAD || a.kind == BEHIND ==> a.co !in g.bos && a.co !in g.eos)
    && (a.kind == PLAIN && a.co in g.bos ==> a.from == g.pre)
    && (a.kind == PLAIN && a.co in g.eos ==> a.to == g.post)
  }
}
