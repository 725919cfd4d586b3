/** Time zone tables (tclClock.c): finding the offset in force at a second, and converting both ways between UTC and local time. */
module TimeZones {
  import opened Folding

  datatype Cell = Number(value: int) | Text

  /** A row of a time zone table: the second from which it holds, the offset of local time, the zone's name. */
  datatype Row = Row(start: Cell, offset: Cell, name: string) | NotAList

  datatype Outcome = Done | Error | Panic

  const HAVE := 8

  predicate Starts(row: Row) {
    row.Row? && row.start.Number?
  }

  predicate HasOffset(row: Row) {
    row.Row? && row.offset.Number?
  }

  /** Every row has a second to start from. */
  predicate Timed(rows: seq<Row>) {
    |rows| >= 1 && forall i :: 0 <= i < |rows| ==> Starts(rows[i])
  }

  predicate WellFormed(rows: seq<Row>) {
    Timed(rows) && forall i :: 0 <= i < |rows| ==> HasOffset(rows[i])
  }

  function Start(row: Row): int
    requires Starts(row)
  {
    row.start.value
  }

  predicate Sorted(rows: seq<Row>)
    requires Timed(rows)
  {
    forall i, j :: 0 <= i < j < |rows| ==> Start(rows[i]) <= Start(rows[j])
  }

  /** The last row in force at a second, else the first row. */
  function LastRow(rows: seq<Row>, tick: int): (k: nat)
    requires Timed(rows)
    ensures k < |rows|
    ensures k > 0 ==> Start(rows[k]) <= tick
    ensures forall i :: k < i < |rows| ==> tick < Start(rows[i])
  {
    if |rows| == 1 || Start(rows[|rows| - 1]) <= tick then |rows| - 1 else LastRow(rows[..|rows| - 1], tick)
  }

  /** `LookupLastTransition`: a row number, or nothing when a row looked at is malformed. Where the search stops the
      tick lies between neighbouring rows, sorted or not; in a sorted table that is the last row in force. */
  method LookupLastTransition(tick: int, rows: seq<Row>) returns (ok: bool, k: nat)
    requires |rows| >= 1
    ensures Timed(rows) ==> ok
    ensures !Starts(rows[0]) ==> !ok
    ensures ok ==> k < |rows|
    ensures ok ==> Starts(rows[0]) && Starts(rows[k])
    ensures ok && tick < Start(rows[0]) ==> k == 0
    ensures ok && Start(rows[0]) <= tick ==> Start(rows[k]) <= tick
    ensures ok && Start(rows[0]) <= tick && k + 1 < |rows| ==> Starts(rows[k + 1]) && tick < Start(rows[k + 1])
    ensures Timed(rows) && Sorted(rows) ==> k == LastRow(rows, tick)
  {
    if !Starts(rows[0]) {
      return false, 0;
    }
    if tick < Start(rows[0]) {
      return true, 0;
    }
    var l, u := 0, |rows| - 1;
    while l < u
      invariant 0 <= l <= u < |rows| && Starts(rows[l]) && Start(rows[l]) <= tick
      invariant u + 1 < |rows| ==> Starts(rows[u + 1]) && tick < Start(rows[u + 1])
      decreases u - l
    {
      var m := (l + u + 1) / 2;
      if !Starts(rows[m]) {
        return false, 0;
      }
      if tick >= Start(rows[m]) {
        l := m;
      } else {
        u := m - 1;
      }
    }
    return true, l;
  }

  // ----- offsets

  function Offset(rows: seq<Row>, second: int): int
    requires WellFormed(rows)
  {
    rows[LastRow(rows, second)].offset.value
  }

  function Offsets(rows: seq<Row>): set<int>
    requires WellFormed(rows)
  {
    set i | 0 <= i < |rows| :: rows[i].offset.value
  }

  /** A second shows a local time. */
  predicate Shows(rows: seq<Row>, second: int, local: int)
    requires WellFormed(rows)
  {
    second + Offset(rows, second) == local
  }

  /** The offsets tried for a local time: first as if it were UTC, then each time with the offset found before. */
  ghost predicate Tries(rows: seq<Row>, local: int, s: seq<int>)
    requires WellFormed(rows)
  {
    && (|s| > 0 ==> s[0] == Offset(rows, local))
    && forall i, j :: 0 <= i < j < |s| && j == i + 1 ==> s[j] == Offset(rows, local - s[i])
  }

  predicate Distinct(s: seq<int>) {
    forall i, j :: 0 <= i < j < |s| ==> s[i] != s[j]
  }

  /** The offsets tried, the last of them the first to come again. */
  ghost predicate Repeats(rows: seq<Row>, local: int, s: seq<int>, last: int)
    requires WellFormed(rows)
  {
    Tries(rows, local, s + [last]) && Distinct(s) && last in s
  }

  /** The row in force at a second and its offset, as both conversions read them. */
  method OffsetAt(second: int, rows: seq<Row>) returns (ok: bool, k: nat, offset: int)
    requires |rows| >= 1
    ensures WellFormed(rows) ==> ok && offset in Offsets(rows)
    ensures ok ==> k < |rows| && HasOffset(rows[k]) && offset == rows[k].offset.value
    ensures WellFormed(rows) && Sorted(rows) ==> k == LastRow(rows, second) && offset == Offset(rows, second)
  {
    ok, k := LookupLastTransition(second, rows);
    ok := ok && HasOffset(rows[k]);
    offset := if ok then rows[k].offset.value else 0;
  }

  class Times {
    var seconds: int
    var localSeconds: int
    var tzOffset: int
    var tzName: string
  }

  /** `ConvertUTCToLocalUsingTable`. */
  method ConvertUTCToLocalUsingTable(f: Times, rows: seq<Row>) returns (r: Outcome)
    requires |rows| >= 1
    modifies f`localSeconds, f`tzOffset, f`tzName
    ensures r != Panic && (WellFormed(rows) ==> r == Done)
    ensures r == Done ==> f.localSeconds == f.seconds + f.tzOffset
    ensures r == Error ==> f.localSeconds == old(f.localSeconds) && f.tzOffset == old(f.tzOffset) && f.tzName == old(f.tzName)
    ensures WellFormed(rows) && Sorted(rows) ==>
      f.tzOffset == Offset(rows, f.seconds) && f.tzName == rows[LastRow(rows, f.seconds)].name && Shows(rows, f.seconds, f.localSeconds)
  {
    var ok, k, offset := OffsetAt(f.seconds, rows);
    if !ok {
      return Error;
    }
    f.tzOffset := offset;
    f.tzName := rows[k].name;
    f.localSeconds := f.seconds + f.tzOffset;
    return Done;
  }

  /** Looks for an offset among those tried. */
  method Seen(have: array<int>, nHave: nat, offset: int) returns (i: nat, found: bool)
    requires nHave <= have.Length
    ensures found ==> i < nHave && have[i] == offset
    ensures !found ==> offset !in have[..nHave]
  {
    i := 0;
    while i < nHave
      invariant 0 <= i <= nHave && offset !in have[..i]
    {
      if have[i] == offset {
        return i, true;
      }
      i := i + 1;
    }
    return i, false;
  }

  /** Tries offsets until one comes again, the i-th of those noted; nine different ones are a panic. */
  method TryOffsets(f: Times, rows: seq<Row>) returns (r: Outcome, have: array<int>, i: nat, ghost s: seq<int>)
    requires |rows| >= 1
    modifies f`seconds, f`tzOffset
    ensures WellFormed(rows) ==> r != Error
    ensures r == Panic ==> Tried(rows, f.localSeconds, s) && Distinct(s) && |s| == HAVE + 1
    ensures r == Done ==> |s| <= HAVE == have.Length && have[..|s|] == s && Distinct(s) && i < |s|
    ensures r == Done ==> Tried(rows, f.localSeconds, s + [s[i]])
  {
    have := new int[HAVE];
    i := 0;
    s := [];
    var nHave := 0;
    var found := false;
    ghost var local := f.localSeconds;
    f.tzOffset := 0;
    f.seconds := f.localSeconds;
    TriedNone(rows, local);
    while !found
      invariant f.localSeconds == local && 0 <= nHave <= HAVE && s == have[..nHave] && Distinct(s)
      invariant !found ==> f.seconds == local - if s == [] then 0 else s[|s| - 1]
      invariant found ==> i < |s| && Tried(rows, local, s + [s[i]])
      invariant !found ==> Tried(rows, local, s)
      decreases !found, HAVE - nHave
    {
      var ok, _, offset := OffsetAt(f.seconds, rows);
      if !ok {
        return Error, have, 0, [];
      }
      f.tzOffset := offset;
      TriedNext(rows, local, s, offset);
      i, found := Seen(have, nHave, offset);
      if !found {
        s := s + [offset];
        if nHave == HAVE {
          return Panic, have, 0, s;
        }
        have[nHave] := f.tzOffset;
        nHave := nHave + 1;
      }
      f.seconds := f.localSeconds - f.tzOffset;
    }
    return Done, have, i, s;
  }

  /** Where the search is short: the first two offsets are those in force when the local time is taken for UTC, and when
      it is converted with the first. The second is the answer if it gives itself, and the first if the second leads back
      to it, as for a local time that does not exist. */
  ghost predicate Answers(rows: seq<Row>, local: int, r: Outcome, offset: int)
    requires WellFormed(rows)
  {
    var first := Offset(rows, local);
    var second := Offset(rows, local - first);
    && (Offset(rows, local - second) == second ==> r == Done && offset == second)
    && (Offset(rows, local - second) == first ==> r == Done && offset == first)
  }

  /** `ConvertLocalToUTCUsingTable`. A table of at most eight offsets does not make it panic. */
  method ConvertLocalToUTCUsingTable(f: Times, rows: seq<Row>) returns (r: Outcome, ghost s: seq<int>)
    requires |rows| >= 1
    modifies f`seconds, f`tzOffset
    ensures WellFormed(rows) ==> r != Error
    ensures r == Done ==> f.seconds == f.localSeconds - f.tzOffset
    ensures WellFormed(rows) && r == Panic ==> |Offsets(rows)| > 8
    ensures WellFormed(rows) && Sorted(rows) ==> Answers(rows, f.localSeconds, r, f.tzOffset)
    ensures WellFormed(rows) && Sorted(rows) && r == Panic ==> |s| == 9
    ensures WellFormed(rows) && Sorted(rows) && r == Panic ==> Tries(rows, f.localSeconds, s) && Distinct(s) && |s| == HAVE + 1
    ensures WellFormed(rows) && Sorted(rows) && r == Done ==> |s| <= HAVE && Repeats(rows, f.localSeconds, s, f.tzOffset)
    ensures WellFormed(rows) && Sorted(rows) ==> (r == Panic <==> Wanders(rows, f.localSeconds, HAVE + 1))
    ensures WellFormed(rows) && Sorted(rows) && r == Done ==> (Shows(rows, f.seconds, f.localSeconds) <==> Settles(rows, f.localSeconds))
  {
    var have, i;
    r, have, i, s := TryOffsets(f, rows);
    if r == Panic {
      TriedTooMany(rows, f.localSeconds, s, f.tzOffset);
    } else if r == Done {
      f.tzOffset := have[i];
      f.seconds := f.localSeconds - f.tzOffset;
      TriedEnough(rows, f.localSeconds, s, f.tzOffset);
    }
  }

  /** Offsets taken from the table, in a good and sorted table those the search is to try. */
  ghost predicate Tried(rows: seq<Row>, local: int, s: seq<int>) {
    forall u {:trigger Look(u)} :: Look(u) ==> WellFormed(rows) ==>
      (forall j :: 0 <= j < |s| ==> s[j] in Offsets(rows)) && (Sorted(rows) ==> Tries(rows, local, s))
  }

  lemma TriedNone(rows: seq<Row>, local: int)
    ensures Tried(rows, local, [])
  {}

  lemma TriedNext(rows: seq<Row>, local: int, s: seq<int>, offset: int)
    requires Tried(rows, local, s)
    requires WellFormed(rows) ==> offset in Offsets(rows)
    requires WellFormed(rows) && Sorted(rows) ==> offset == Offset(rows, local - if s == [] then 0 else s[|s| - 1])
    ensures Tried(rows, local, s + [offset])
  {
    assert Look(0);
  }

  lemma TriedTooMany(rows: seq<Row>, local: int, s: seq<int>, offset: int)
    requires Tried(rows, local, s) && Distinct(s) && |s| == HAVE + 1
    ensures WellFormed(rows) ==> |Offsets(rows)| > 8
    ensures WellFormed(rows) && Sorted(rows) ==>
      Tries(rows, local, s) && Wanders(rows, local, HAVE + 1) && Answers(rows, local, Panic, offset)
  {
    assert Look(0);
    if WellFormed(rows) {
      TooMany(s, Offsets(rows));
      if Sorted(rows) {
        PanicWanders(rows, local, s);
        NotEarly(rows, local, s, offset);
      }
    }
  }

  lemma TriedEnough(rows: seq<Row>, local: int, s: seq<int>, last: int)
    requires Tried(rows, local, s + [last]) && Distinct(s) && last in s && |s| <= HAVE
    ensures WellFormed(rows) && Sorted(rows) ==>
      && Repeats(rows, local, s, last) && !Wanders(rows, local, HAVE + 1) && Answers(rows, local, Done, last)
      && (Shows(rows, local - last, local) <==> Settles(rows, local))
  {
    assert Look(0);
    if WellFormed(rows) && Sorted(rows) {
      DoneReturns(rows, local, s, last, HAVE + 1);
      FoundIfSettles(rows, local, s, last);
      FoundEarly(rows, local, s, last);
    }
  }

  lemma FirstTries(rows: seq<Row>, local: int, t: seq<int>)
    requires WellFormed(rows) && Tries(rows, local, t)
    ensures |t| > 0 ==> t[0] == Offset(rows, local)
    ensures |t| > 1 ==> t[1] == Offset(rows, local - Offset(rows, local))
    ensures |t| > 2 ==> t[2] == Offset(rows, local - Offset(rows, local - Offset(rows, local)))
  {
    assert |t| > 1 ==> t[1] == Offset(rows, local - t[0]);
    assert |t| > 2 ==> t[2] == Offset(rows, local - t[1]);
  }

  /** A short search's answer. */
  lemma FoundEarly(rows: seq<Row>, local: int, s: seq<int>, last: int)
    requires WellFormed(rows) && Repeats(rows, local, s, last)
    ensures Answers(rows, local, Done, last)
  {
    var t := s + [last];
    FirstTries(rows, local, t);
    assert t[..|s|] == s;
    if |s| == 1 {
      assert t[1] == last == t[0];
    } else if |s| == 2 {
      assert t[2] == last && t[0] == s[0] && t[1] == s[1];
    } else {
      assert t[0] == s[0] && t[1] == s[1] && t[2] == s[2];
    }
  }

  lemma NotEarly(rows: seq<Row>, local: int, s: seq<int>, offset: int)
    requires WellFormed(rows) && Tries(rows, local, s) && Distinct(s) && |s| == 9
    ensures Answers(rows, local, Panic, offset)
  {
    FirstTries(rows, local, s);
    assert s[2] != s[0] && s[2] != s[1];
  }

  /** Different members of a set are no more than it holds. */
  lemma {:induction false} TooMany(s: seq<int>, offsets: set<int>)
    requires Distinct(s) && forall i :: 0 <= i < |s| ==> s[i] in offsets
    ensures |s| <= |offsets|
  {
    if |s| > 0 {
      var last := s[|s| - 1];
      TooMany(s[..|s| - 1], offsets - {last});
    }
  }

  // ----- what the offset found is worth

  lemma IsOffset(rows: seq<Row>, second: int)
    requires WellFormed(rows)
    ensures Offset(rows, second) in Offsets(rows)
  {}

  /** The second found shows the local time exactly when the last two tries agree. */
  lemma LastTwoAgree(rows: seq<Row>, local: int, s: seq<int>, last: int)
    requires WellFormed(rows) && Repeats(rows, local, s, last)
    ensures Shows(rows, local - last, local) <==> last == s[|s| - 1]
  {
    var t := s + [last];
    var j :| 0 <= j < |s| && s[j] == last;
    var next: nat := j + 1;
    assert t[j] == last && t[next] == Offset(rows, local - last);
    assert next < |s| ==> s[j] != s[next] && s[j] != s[|s| - 1];
  }

  // ----- when the offset found fits, by the table alone

  /** The offsets that would be tried for a local time, without end. */
  function Orbit(rows: seq<Row>, local: int, k: nat): int
    requires WellFormed(rows)
  {
    if k == 0 then Offset(rows, local) else Offset(rows, local - Orbit(rows, local, k - 1))
  }

  /** The k-th offset tried gives itself. */
  predicate SettlesAt(rows: seq<Row>, local: int, k: nat)
    requires WellFormed(rows)
  {
    Orbit(rows, local, k) == Orbit(rows, local, k + 1)
  }

  /** An offset gives itself within as many tries as the table has offsets. */
  predicate Settles(rows: seq<Row>, local: int)
    requires WellFormed(rows)
  {
    exists k: nat :: k < |Offsets(rows)| && SettlesAt(rows, local, k)
  }

  /** The first n offsets tried are different. */
  predicate Wanders(rows: seq<Row>, local: int, n: nat)
    requires WellFormed(rows)
  {
    forall i: nat, j: nat :: i < j < n ==> Orbit(rows, local, i) != Orbit(rows, local, j)
  }

  lemma OrbitNext(rows: seq<Row>, local: int, i: nat, o: int)
    requires WellFormed(rows) && o == Orbit(rows, local, i)
    ensures Orbit(rows, local, i + 1) == Offset(rows, local - o) && Offset(rows, local - o) in Offsets(rows)
  {}

  lemma {:induction false} TriesFollow(rows: seq<Row>, local: int, s: seq<int>, i: nat)
    requires WellFormed(rows) && Tries(rows, local, s) && i < |s|
    ensures s[i] == Orbit(rows, local, i) && s[i] in Offsets(rows)
  {
    if i == 0 {
      IsOffset(rows, local);
    } else {
      var h: nat := i - 1;
      TriesFollow(rows, local, s, h);
      OrbitNext(rows, local, h, s[h]);
    }
  }

  /** The offsets tried are the first of the orbit, up to and with the one that comes again. */
  lemma AllFollow(rows: seq<Row>, local: int, s: seq<int>, last: int)
    requires WellFormed(rows) && Repeats(rows, local, s, last)
    ensures forall i: nat :: i < |s| ==> s[i] == Orbit(rows, local, i) && s[i] in Offsets(rows)
    ensures last == Orbit(rows, local, |s|)
  {
    var t := s + [last];
    TriesFollow(rows, local, t, |s|);
    forall i: nat | i < |s|
      ensures s[i] == Orbit(rows, local, i) && s[i] in Offsets(rows)
    {
      TriesFollow(rows, local, t, i);
    }
  }

  /** The same as values of any function, each decided by the one before. */
  function Iterated(f: int -> int, x: int, k: nat): int {
    if k == 0 then x else f(Iterated(f, x, k - 1))
  }

  function NextTry(rows: seq<Row>, local: int): int -> int
    requires WellFormed(rows)
  {
    o => Offset(rows, local - o)
  }

  lemma TriedAfter(rows: seq<Row>, local: int, o: int)
    requires WellFormed(rows)
    ensures NextTry(rows, local)(o) == Offset(rows, local - o)
  {}

  lemma {:induction false} OrbitIterates(rows: seq<Row>, local: int, f: int -> int, x: int, k: nat)
    requires WellFormed(rows) && f == NextTry(rows, local) && x == Offset(rows, local)
    ensures Orbit(rows, local, k) == Iterated(f, x, k)
  {
    if k > 0 {
      OrbitIterates(rows, local, f, x, k - 1);
      TriedAfter(rows, local, Orbit(rows, local, k - 1));
    }
  }

  lemma OrbitIterated(rows: seq<Row>, local: int) returns (f: int -> int, x: int)
    requires WellFormed(rows)
    ensures forall k: nat :: Orbit(rows, local, k) == Iterated(f, x, k)
  {
    f, x := NextTry(rows, local), Offset(rows, local);
    forall k: nat
      ensures Orbit(rows, local, k) == Iterated(f, x, k)
    {
      OrbitIterates(rows, local, f, x, k);
    }
  }

  /** From a repetition on the values go round. */
  lemma {:induction false} GoesRound(f: int -> int, x: int, j: nat, n: nat, k: nat) returns (i: nat)
    requires j < n && j <= k && Iterated(f, x, n) == Iterated(f, x, j)
    ensures j <= i < n && Iterated(f, x, k) == Iterated(f, x, i)
  {
    i := j;
    if j < k {
      var h := GoesRound(f, x, j, n, k - 1);
      assert Iterated(f, x, k) == Iterated(f, x, h + 1);
      if h + 1 < n {
        i := h + 1;
      }
    }
  }

  /** A value that comes again at once does so before any other has come again. */
  lemma SettlesEarly(f: int -> int, x: int, j: nat, n: nat, k: nat)
    requires j < n && Iterated(f, x, n) == Iterated(f, x, j) && Iterated(f, x, k) == Iterated(f, x, k + 1)
    requires forall a: nat, b: nat :: a < b < n ==> Iterated(f, x, a) != Iterated(f, x, b)
    ensures Iterated(f, x, n) == Iterated(f, x, n - 1)
  {
    if k >= j {
      var i := GoesRound(f, x, j, n, k);
      assert Iterated(f, x, i + 1) == Iterated(f, x, i);
    }
  }

  lemma OrbitSettlesEarly(rows: seq<Row>, local: int, j: nat, n: nat, k: nat)
    requires WellFormed(rows) && j < n && Orbit(rows, local, n) == Orbit(rows, local, j)
    requires Wanders(rows, local, n) && SettlesAt(rows, local, k)
    ensures Orbit(rows, local, n) == Orbit(rows, local, n - 1)
  {
    var f, x := OrbitIterated(rows, local);
    SettlesEarly(f, x, j, n, k);
  }

  /** The first repetition is of the value just before exactly when the orbit settles. */
  lemma OrbitSettles(rows: seq<Row>, local: int, j: nat, n: nat)
    requires WellFormed(rows) && j < n <= |Offsets(rows)| && Orbit(rows, local, n) == Orbit(rows, local, j) && Wanders(rows, local, n)
    ensures Orbit(rows, local, n) == Orbit(rows, local, n - 1) <==> Settles(rows, local)
  {
    if Orbit(rows, local, n) == Orbit(rows, local, n - 1) {
      assert SettlesAt(rows, local, n - 1);
    } else if k: nat :| k < |Offsets(rows)| && SettlesAt(rows, local, k) {
      OrbitSettlesEarly(rows, local, j, n, k);
    }
  }

  lemma FirstAgain(rows: seq<Row>, local: int, s: seq<int>, last: int) returns (j: nat)
    requires WellFormed(rows) && Repeats(rows, local, s, last)
    ensures j < |s| <= |Offsets(rows)| && Orbit(rows, local, |s|) == last == Orbit(rows, local, j) && Wanders(rows, local, |s|)
    ensures s[|s| - 1] == Orbit(rows, local, |s| - 1)
  {
    AllFollow(rows, local, s, last);
    TooMany(s, Offsets(rows));
    j :| j < |s| && s[j] == last;
  }

  lemma RepeatsSettle(rows: seq<Row>, local: int, s: seq<int>, last: int)
    requires WellFormed(rows) && Repeats(rows, local, s, last)
    ensures last == s[|s| - 1] <==> Settles(rows, local)
  {
    var j := FirstAgain(rows, local, s, last);
    OrbitSettles(rows, local, j, |s|);
  }

  /** The second found shows the local time exactly when the offsets tried settle. */
  lemma FoundIfSettles(rows: seq<Row>, local: int, s: seq<int>, last: int)
    requires WellFormed(rows) && Repeats(rows, local, s, last)
    ensures Shows(rows, local - last, local) <==> Settles(rows, local)
  {
    LastTwoAgree(rows, local, s, last);
    RepeatsSettle(rows, local, s, last);
  }

  /** Too many tries: the orbit wanders. */
  lemma PanicWanders(rows: seq<Row>, local: int, s: seq<int>)
    requires WellFormed(rows) && Tries(rows, local, s) && Distinct(s)
    ensures Wanders(rows, local, |s|)
  {
    forall i: nat | i < |s|
      ensures s[i] == Orbit(rows, local, i)
    {
      TriesFollow(rows, local, s, i);
    }
  }

  /** A repetition: it does not. */
  lemma DoneReturns(rows: seq<Row>, local: int, s: seq<int>, last: int, n: nat)
    requires WellFormed(rows) && Repeats(rows, local, s, last) && |s| < n
    ensures !Wanders(rows, local, n)
  {
    var j := FirstAgain(rows, local, s, last);
  }

  lemma OneOfTwo(offsets: set<int>, a: int, b: int, c: int)
    requires |offsets| <= 2 && a in offsets && b in offsets && c in offsets && a != b
    ensures c == a || c == b
  {
    if c != a && c != b {
      TooMany([a, b, c], offsets);
    }
  }

  /** With at most two offsets in the table, the second found shows the local time whenever any second does. */
  lemma TwoOffsets(rows: seq<Row>, local: int, s: seq<int>, last: int)
    requires WellFormed(rows) && |Offsets(rows)| <= 2 && Repeats(rows, local, s, last)
    ensures Shows(rows, local - last, local) <==> exists second :: Shows(rows, second, local)
  {
    if second :| Shows(rows, second, local) {
      var o := Offset(rows, second);
      assert second == local - o;
      IsOffset(rows, second);
      FindsIt(rows, local, o);
      FoundIfSettles(rows, local, s, last);
    }
  }

  /** The two offsets of a table are tried within two tries: one that fits settles them. */
  lemma FindsIt(rows: seq<Row>, local: int, o: int)
    requires WellFormed(rows) && |Offsets(rows)| <= 2 && Offset(rows, local - o) == o
    ensures Settles(rows, local)
  {
    var first := Orbit(rows, local, 0);
    var second := Orbit(rows, local, 1);
    IsOffset(rows, local);
    IsOffset(rows, local - first);
    IsOffset(rows, local - o);
    if first == o || second == first {
      assert SettlesAt(rows, local, 0);
    } else {
      OneOfTwo(Offsets(rows), first, o, second);
      TooMany([first, o], Offsets(rows));
      assert SettlesAt(rows, local, 1);
    }
  }

  /** So a second converted to local time and back shows the same local time again. */
  lemma BackAndForth(rows: seq<Row>, second: int, s: seq<int>, last: int)
    requires WellFormed(rows) && |Offsets(rows)| <= 2
    requires Repeats(rows, second + Offset(rows, second), s, last)
    ensures var local := second + Offset(rows, second); Shows(rows, local - last, local)
  {
    var local := second + Offset(rows, second);
    assert Shows(rows, second, local);
    TwoOffsets(rows, local, s, last);
  }

  /** With three offsets the search can circle between two that do not fit while the third does. */
  lemma ThreeOffsetsCircle()
    ensures var rows := [Row(Number(-100), Number(10), "A"), Row(Number(-5), Number(-1), "B"), Row(Number(0), Number(1), "C")];
      && WellFormed(rows) && Sorted(rows)
      && Repeats(rows, 0, [1, -1], 1)
      && !Shows(rows, 0 - 1, 0)
      && Shows(rows, -10, 0)
  {
    var rows := [Row(Number(-100), Number(10), "A"), Row(Number(-5), Number(-1), "B"), Row(Number(0), Number(1), "C")];
    assert rows[..2] == [Row(Number(-100), Number(10), "A"), Row(Number(-5), Number(-1), "B")];
    assert rows[..2][..1] == [Row(Number(-100), Number(10), "A")];
    assert [1, -1] + [1] == [1, -1, 1];
  }
}
