/** The words of a command and their `{*}` expansion in `TclEvalEx` (tclBasic.c). */
module Expansion {
  import opened Folding

  /** An object by number. */
  type Obj = int

  /** The objects that can be used as lists, with their elements. */
  type Lists = map<Obj, seq<Obj>>

  /** A word of a command: what it substitutes to and whether it is to be expanded. */
  datatype Word = Word(value: Obj, expand: bool) | Failing

  predicate Good(l: Lists, w: Word) {
    w.Word? && (w.expand ==> w.value in l)
  }

  /** The first n words can be substituted and expanded. */
  predicate AllGood(l: Lists, ws: seq<Word>, n: nat) {
    n <= |ws| && forall i :: 0 <= i < n ==> Good(l, ws[i])
  }

  /** What a word contributes to the command. */
  function Piece(l: Lists, w: Word): seq<Obj> {
    if !Good(l, w) then [] else if w.expand then l[w.value] else [w.value]
  }

  /** The words from word i on, in order, with each expanded list spliced in. */
  function Spliced(l: Lists, ws: seq<Word>, i: nat): seq<Obj>
    requires i <= |ws|
    decreases |ws| - i
  {
    if i == |ws| then [] else Piece(l, ws[i]) + Spliced(l, ws, i + 1)
  }

  /** Slots set aside for a word: at least one, an empty list included. */
  function Room(l: Lists, w: Word): (n: nat)
    ensures n >= 1 && n == |Piece(l, w)| + if Piece(l, w) == [] then 1 else 0
  {
    if Piece(l, w) == [] then 1 else |Piece(l, w)|
  }

  /** Slots set aside for the first n words. */
  function RoomFor(l: Lists, ws: seq<Word>, n: nat): (r: nat)
    requires n <= |ws|
    ensures r >= n
  {
    if n == 0 then 0 else RoomFor(l, ws, n - 1) + Room(l, ws[n - 1])
  }

  /** Words from word i on that come to nothing. */
  function Empties(l: Lists, ws: seq<Word>, i: nat): nat
    requires i <= |ws|
    decreases |ws| - i
  {
    if i == |ws| then 0 else (if Piece(l, ws[i]) == [] then 1 else 0) + Empties(l, ws, i + 1)
  }

  /** Where the words before word i end in the command. */
  function Before(l: Lists, ws: seq<Word>, i: nat): nat
    requires i <= |ws|
  {
    if i == 0 then 0 else Before(l, ws, i - 1) + |Piece(l, ws[i - 1])|
  }

  /** Each word stands right after the words before it, and nothing else is in the command. */
  lemma {:induction false} WordPlaced(l: Lists, ws: seq<Word>, i: nat)
    requires i <= |ws|
    ensures Before(l, ws, i) <= |Spliced(l, ws, 0)| && Spliced(l, ws, 0)[Before(l, ws, i)..] == Spliced(l, ws, i)
    ensures i < |ws| ==> Piece(l, ws[i]) <= Spliced(l, ws, i)
    ensures i == |ws| ==> Before(l, ws, i) == |Spliced(l, ws, 0)|
  {
    if i > 0 {
      WordPlaced(l, ws, i - 1);
      DropTwice(Spliced(l, ws, 0), Before(l, ws, i - 1), Piece(l, ws[i - 1]), Spliced(l, ws, i));
    }
    if i < |ws| {
      IsPrefix(Piece(l, ws[i]), Spliced(l, ws, i + 1));
    }
  }

  lemma IsPrefix(piece: seq<Obj>, rest: seq<Obj>)
    ensures piece <= piece + rest
  {}

  lemma DropTwice(s: seq<Obj>, n: nat, piece: seq<Obj>, rest: seq<Obj>)
    requires n <= |s| && s[n..] == piece + rest
    ensures n + |piece| <= |s| && s[n + |piece|..] == rest
  {
    assert s[n..][|piece|..] == rest;
  }

  /** The word takes up these slots of the command: an expanded list with its elements in their order, any other word
      with itself. */
  ghost predicate WordAt(l: Lists, w: Word, command: seq<Obj>, from: nat, to: nat) {
    && w.Word? && from <= to <= |command|
    && if w.expand
       then w.value in l && to == from + |l[w.value]| && forall j | 0 <= j < |l[w.value]| :: command[from + j] == l[w.value][j]
       else to == from + 1 && command[from] == w.value
  }

  /** The words, and nothing else, stand in the command one after the other. */
  ghost predicate InOrder(l: Lists, ws: seq<Word>, command: seq<Obj>, at: seq<nat>) {
    && |at| == |ws| + 1 && at[0] == 0 && at[|ws|] == |command|
    && forall i | 0 <= i < |ws| :: WordAt(l, ws[i], command, at[i], at[i + 1])
  }

  /** Where the words stand. */
  function Places(l: Lists, ws: seq<Word>): (at: seq<nat>)
    ensures |at| == |ws| + 1
  {
    seq(|ws| + 1, i requires 0 <= i <= |ws| => Before(l, ws, i))
  }

  lemma FromPrefix(command: seq<Obj>, from: nat, piece: seq<Obj>, rest: seq<Obj>)
    requires from <= |command| && command[from..] == rest && piece <= rest
    ensures from + |piece| <= |command| && forall j | 0 <= j < |piece| :: command[from + j] == piece[j]
  {
    forall j | 0 <= j < |piece|
      ensures command[from + j] == piece[j]
    {
      assert command[from..][j] == rest[j] == piece[j];
    }
  }

  lemma PieceWordAt(l: Lists, w: Word, command: seq<Obj>, from: nat, to: nat, piece: seq<Obj>)
    requires Good(l, w) && piece == Piece(l, w) && to == from + |piece| <= |command|
    requires forall j | 0 <= j < |piece| :: command[from + j] == piece[j]
    ensures WordAt(l, w, command, from, to)
  {
    assert !w.expand ==> command[from + 0] == piece[0];
  }

  lemma PieceAt(l: Lists, ws: seq<Word>, i: nat)
    requires i < |ws| && Good(l, ws[i])
    ensures WordAt(l, ws[i], Spliced(l, ws, 0), Before(l, ws, i), Before(l, ws, i + 1))
  {
    WordPlaced(l, ws, i);
    FromPrefix(Spliced(l, ws, 0), Before(l, ws, i), Piece(l, ws[i]), Spliced(l, ws, i));
    PieceWordAt(l, ws[i], Spliced(l, ws, 0), Before(l, ws, i), Before(l, ws, i + 1), Piece(l, ws[i]));
  }

  /** The words spliced are in order. */
  lemma SplicedInOrder(l: Lists, ws: seq<Word>)
    requires AllGood(l, ws, |ws|)
    ensures InOrder(l, ws, Spliced(l, ws, 0), Places(l, ws))
  {
    var command, at := Spliced(l, ws, 0), Places(l, ws);
    forall i | 0 <= i < |ws|
      ensures WordAt(l, ws[i], command, at[i], at[i + 1])
    {
      PieceAt(l, ws, i);
    }
    WordPlaced(l, ws, |ws|);
  }

  lemma SameWord(l: Lists, w: Word, c: seq<Obj>, c': seq<Obj>, from: nat, to: nat, to': nat)
    requires WordAt(l, w, c, from, to) && WordAt(l, w, c', from, to')
    ensures to == to' && c[from..to] == c'[from..to]
  {
    forall k | from <= k < to
      ensures c[k] == c'[k]
    {
      if w.expand {
        var j := k - from;
        assert c[from + j] == l[w.value][j] == c'[from + j];
      }
    }
  }

  lemma {:induction false} SameWords(l: Lists, ws: seq<Word>, c: seq<Obj>, at: seq<nat>, c': seq<Obj>, at': seq<nat>, n: nat)
    requires InOrder(l, ws, c, at) && InOrder(l, ws, c', at') && n <= |ws|
    ensures at[n] == at'[n] && at[n] <= |c| && at[n] <= |c'| && c[..at[n]] == c'[..at[n]]
  {
    if n > 0 {
      SameWords(l, ws, c, at, c', at', n - 1);
      var from, to := at[n - 1], at[n];
      assert WordAt(l, ws[n - 1], c, at[n - 1], at[n - 1 + 1]) && WordAt(l, ws[n - 1], c', at'[n - 1], at'[n - 1 + 1]);
      SameWord(l, ws[n - 1], c, c', from, to, at'[n]);
      assert c[..to] == c[..from] + c[from..to] && c'[..to] == c'[..from] + c'[from..to];
    }
  }

  /** There is one command with the words in order. */
  lemma OneCommand(l: Lists, ws: seq<Word>, c: seq<Obj>, at: seq<nat>, c': seq<Obj>, at': seq<nat>)
    requires InOrder(l, ws, c, at) && InOrder(l, ws, c', at')
    ensures c == c'
  {
    SameWords(l, ws, c, at, c', at', |ws|);
    assert c[..|c|] == c && c'[..|c'|] == c';
  }

  // ----- collecting

  predicate FirstBad(l: Lists, ws: seq<Word>, n: nat) {
    AllGood(l, ws, n) && n < |ws| && !Good(l, ws[n])
  }

  /** What the first n words substitute to. */
  function Values(ws: seq<Word>, n: nat): (s: seq<Obj>)
    requires n <= |ws|
    ensures |s| == n
  {
    if n == 0 then [] else Values(ws, n - 1) + [if ws[n - 1].Word? then ws[n - 1].value else 0]
  }

  lemma {:induction false} ValueAt(ws: seq<Word>, n: nat, i: nat)
    requires i < n <= |ws| && ws[i].Word?
    ensures Values(ws, n)[i] == ws[i].value
  {
    if i < n - 1 {
      ValueAt(ws, n - 1, i);
    }
  }

  /** The first n words are stored with their flags. */
  ghost predicate Stored(l: Lists, ws: seq<Word>, n: nat, objs: seq<Obj>, flags: seq<bool>) {
    forall u {:trigger Look(u)} :: Look(u) ==>
    AllGood(l, ws, n) && n <= |objs| && n == |flags| && forall i :: 0 <= i < n ==> objs[i] == ws[i].value && flags[i] == ws[i].expand
  }

  predicate Requested(ws: seq<Word>, n: nat) {
    n <= |ws| && exists i :: 0 <= i < n && ws[i].Word? && ws[i].expand
  }

  /** A word stored with its flag; a bad one leaves the words before it. */
  ghost predicate Collected(l: Lists, w: Word, objs: seq<Obj>, flags: seq<bool>, objs': seq<Obj>, flags': seq<bool>) {
    forall u {:trigger Look(u)} :: Look(u) ==>
    && |flags| < |objs| == |objs'| && objs'[..|flags|] == objs[..|flags|]
    && (Good(l, w) ==> objs'[|flags|] == w.value && flags' == flags + [w.expand])
    && (!Good(l, w) ==> flags' == flags)
  }

  lemma StoredOne(l: Lists, ws: seq<Word>, n: nat, objs: seq<Obj>, flags: seq<bool>, objs': seq<Obj>, flags': seq<bool>)
    requires n < |ws| && Stored(l, ws, n, objs, flags) && Collected(l, ws[n], objs, flags, objs', flags')
    ensures Good(l, ws[n]) ==> Stored(l, ws, n + 1, objs', flags') && |flags'| == n + 1
    ensures !Good(l, ws[n]) ==> Stored(l, ws, n, objs', flags') && FirstBad(l, ws, n)
  {
    assert Look(0);
    assert forall i :: 0 <= i < n ==> objs'[i] == objs'[..n][i] && objs[i] == objs[..n][i];
  }

  lemma CountedOne(l: Lists, ws: seq<Word>, n: nat)
    requires n < |ws| && Good(l, ws[n])
    ensures RoomFor(l, ws, n + 1) == RoomFor(l, ws, n) + Room(l, ws[n])
    ensures Requested(ws, n + 1) <==> Requested(ws, n) || ws[n].expand
  {}

  /** One word substituted and stored in the next slot. */
  method CollectWord(l: Lists, w: Word, objv: array<Obj>, expand0: seq<bool>) returns (ok: bool, slots: nat, expand: seq<bool>)
    requires |expand0| < objv.Length
    modifies objv
    ensures ok == Good(l, w) && (ok ==> slots == Room(l, w))
    ensures Collected(l, w, old(objv[..]), expand0, objv[..], expand)
  {
    slots, expand := 0, expand0;
    if w.Failing? {
      return false, slots, expand;
    }
    objv[|expand0|] := w.value;
    if w.expand {
      if w.value !in l {
        return false, slots, expand;
      }
      expand := expand + [true];
      var numElements := |l[w.value]|;
      slots := if numElements != 0 then numElements else 1;
    } else {
      expand := expand + [false];
      slots := 1;
    }
    ok := true;
  }

  /** The words substituted one by one; `expand` marks those to expand. */
  method CollectWords(l: Lists, ws: seq<Word>, objv: array<Obj>)
    returns (ok: bool, objectsUsed: nat, objectsNeeded: nat, expandRequested: bool, expand: seq<bool>)
    requires objv.Length >= |ws|
    modifies objv
    ensures objectsUsed <= |ws| && Stored(l, ws, objectsUsed, objv[..], expand)
    ensures ok ==> objectsUsed == |ws| && objectsNeeded == RoomFor(l, ws, |ws|) && expandRequested == Requested(ws, |ws|)
    ensures !ok ==> FirstBad(l, ws, objectsUsed)
  {
    ok, objectsUsed, objectsNeeded, expandRequested, expand := true, 0, 0, false, [];
    while objectsUsed < |ws|
      invariant 0 <= objectsUsed == |expand| <= |ws| && Stored(l, ws, objectsUsed, objv[..], expand) && ok
      invariant objectsNeeded == RoomFor(l, ws, objectsUsed) && expandRequested == Requested(ws, objectsUsed)
    {
      ghost var objs, flags := objv[..], expand;
      var slots;
      ok, slots, expand := CollectWord(l, ws[objectsUsed], objv, expand);
      StoredOne(l, ws, objectsUsed, objs, flags, objv[..], expand);
      if !ok {
        return;
      }
      CountedOne(l, ws, objectsUsed);
      expandRequested := expandRequested || ws[objectsUsed].expand;
      objectsNeeded := objectsNeeded + slots;
      objectsUsed := objectsUsed + 1;
    }
  }

  // ----- expanding backwards

  /** A piece laid down below slot `top`. */
  ghost predicate Laid(piece: seq<Obj>, objv: seq<Obj>, top: int, objv': seq<Obj>, next: int) {
    forall u {:trigger Look(u)} :: Look(u) ==>
    -1 <= next == top - |piece| && top < |objv| && objv' == objv[..next + 1] + piece + objv[top + 1..]
  }

  /** The elements of one list, copied downwards from slot `top`. */
  method ExpandList(elements: seq<Obj>, objv: array<Obj>, top: int) returns (objIdx: int)
    requires -1 <= top - |elements| && top < objv.Length
    modifies objv
    ensures objIdx == top - |elements| && Laid(elements, old(objv[..]), top, objv[..], objIdx)
  {
    var numElements := |elements|;
    objIdx := top;
    while numElements > 0
      invariant 0 <= numElements <= |elements| && objIdx == top - (|elements| - numElements)
      invariant objv[..objIdx + 1] == old(objv[..objIdx + 1])
      invariant objv[objIdx + 1..top + 1] == elements[numElements..]
      invariant objv[top + 1..] == old(objv[top + 1..])
    {
      numElements := numElements - 1;
      objv[objIdx] := elements[numElements];
      objIdx := objIdx - 1;
      assert objv[objIdx + 1..top + 1] == [elements[numElements]] + objv[objIdx + 2..top + 1];
    }
    Together(objv[..], old(objv[..]), objIdx, top, elements);
  }

  lemma Together(objv': seq<Obj>, objv: seq<Obj>, next: int, top: int, piece: seq<Obj>)
    requires -1 <= next == top - |piece| && top < |objv| == |objv'|
    requires objv'[..next + 1] == objv[..next + 1] && objv'[next + 1..top + 1] == piece && objv'[top + 1..] == objv[top + 1..]
    ensures Laid(piece, objv, top, objv', next)
  {
    assert objv' == objv'[..next + 1] + objv'[next + 1..top + 1] + objv'[top + 1..];
  }

  /** One word laid down: an expanded list by its elements, any other as it is. */
  method ExpandWord(l: Lists, temp: Obj, expand: bool, objv: array<Obj>, top: int, ghost piece: seq<Obj>) returns (objIdx: int, used: nat)
    requires Good(l, Word(temp, expand)) && piece == Piece(l, Word(temp, expand)) && -1 <= top - |piece| && top < objv.Length
    modifies objv
    ensures used == |piece| && objIdx == top - |piece|
    ensures Laid(piece, old(objv[..]), top, objv[..], objIdx)
  {
    if expand {
      used := |l[temp]|;
      objIdx := ExpandList(l[temp], objv, top);
    } else {
      objv[top] := temp;
      objIdx := top - 1;
      used := 1;
      Together(objv[..], old(objv[..]), objIdx, top, [temp]);
    }
  }

  /** The state of the loop over words: the words before `wordIdx` unread in `copy`, the pieces of the others in place. */
  ghost predicate Expanded(l: Lists, ws: seq<Word>, wordIdx: nat, copy: seq<Obj>, flags: seq<bool>, objv: seq<Obj>, objIdx: int, used: nat) {
    forall u {:trigger Look(u)} :: Look(u) ==>
    && AllGood(l, ws, |ws|) && wordIdx <= |ws| && wordIdx <= |copy| && wordIdx <= |flags| && RoomFor(l, ws, |ws|) <= |objv|
    && objIdx + 1 == RoomFor(l, ws, wordIdx) + Empties(l, ws, wordIdx)
    && objIdx + 1 + used == RoomFor(l, ws, |ws|)
    && (forall i :: 0 <= i < wordIdx ==> copy[i] == ws[i].value && flags[i] == ws[i].expand)
    && objv[objIdx + 1..RoomFor(l, ws, |ws|)] == Spliced(l, ws, wordIdx)
  }

  lemma RoomToLay(l: Lists, ws: seq<Word>, i: nat, copy: seq<Obj>, flags: seq<bool>, objv: seq<Obj>, objIdx: int, used: nat)
    requires 0 < i <= |ws| && Expanded(l, ws, i, copy, flags, objv, objIdx, used)
    ensures objIdx - |Piece(l, ws[i - 1])| >= i - 2 && objIdx < |objv|
    ensures Good(l, ws[i - 1]) && i <= |copy| && i <= |flags| && ws[i - 1] == Word(copy[i - 1], flags[i - 1])
  {
    assert Look(0);
  }

  /** Laying down one word, in the words' own array or another, leaves the words before it alone. */
  lemma OneExpanded(l: Lists, ws: seq<Word>, i: nat, piece: seq<Obj>, copy: seq<Obj>, flags: seq<bool>, objv: seq<Obj>, objIdx: int, used: nat,
                    copy': seq<Obj>, objv': seq<Obj>, next: int, inPlace: bool)
    requires 0 < i <= |ws| && Expanded(l, ws, i, copy, flags, objv, objIdx, used) && piece == Piece(l, ws[i - 1])
    requires Laid(piece, objv, objIdx, objv', next)
    requires if inPlace then copy == objv && copy' == objv' else copy' == copy
    ensures Expanded(l, ws, i - 1, copy', flags, objv', next, used + |piece|)
  {
    assert Look(0);
    LaidDown(objv, objv', next, objIdx, piece, RoomFor(l, ws, |ws|));
    assert next >= i - 2;
  }

  lemma LaidDown(objv: seq<Obj>, objv': seq<Obj>, next: int, objIdx: int, piece: seq<Obj>, end: nat)
    requires -1 <= next == objIdx - |piece| && objIdx < end <= |objv| && objv' == objv[..next + 1] + piece + objv[objIdx + 1..]
    ensures |objv'| == |objv| && objv'[next + 1..end] == piece + objv[objIdx + 1..end]
    ensures forall k :: 0 <= k <= next ==> objv'[k] == objv[k]
  {}

  lemma ToExpand(l: Lists, ws: seq<Word>, copy: seq<Obj>, flags: seq<bool>, objv: seq<Obj>)
    requires Stored(l, ws, |ws|, copy, flags) && RoomFor(l, ws, |ws|) <= |objv|
    ensures Expanded(l, ws, |ws|, copy, flags, objv, RoomFor(l, ws, |ws|) - 1, 0)
  {
    assert Look(0);
  }

  lemma AllExpanded(l: Lists, ws: seq<Word>, copy: seq<Obj>, flags: seq<bool>, objv: seq<Obj>, objIdx: int, used: nat)
    requires Expanded(l, ws, 0, copy, flags, objv, objIdx, used)
    ensures objIdx + 1 == Empties(l, ws, 0) && Assembled(l, ws, true, objv, objIdx + 1, used)
  {
    assert Look(0);
  }

  /** One turn of the loop over words: word `wordIdx` laid down. */
  method ExpandOne(l: Lists, ws: seq<Word>, copy: array<Obj>, objv: array<Obj>, expand: seq<bool>, wordIdx: nat, top: int, ghost laid: nat)
    returns (objIdx: int, used: nat)
    requires wordIdx < |ws| && Expanded(l, ws, wordIdx + 1, copy[..], expand, objv[..], top, laid)
    modifies objv
    ensures objIdx >= -1 && Expanded(l, ws, wordIdx, copy[..], expand, objv[..], objIdx, laid + used)
  {
    ghost var copy0, objv0, piece := copy[..], objv[..], Piece(l, ws[wordIdx]);
    RoomToLay(l, ws, wordIdx + 1, copy0, expand, objv0, top, laid);
    objIdx, used := ExpandWord(l, copy[wordIdx], expand[wordIdx], objv, top, piece);
    OneExpanded(l, ws, wordIdx + 1, piece, copy0, expand, objv0, top, laid, copy[..], objv[..], objIdx, copy == objv);
  }

  /** The loop over words from the last: `copy` holds the words, `objv` receives the command; they may be one array. */
  method ExpandWords(l: Lists, ws: seq<Word>, copy: array<Obj>, objv: array<Obj>, expand: seq<bool>, objectsNeeded: nat)
    returns (start: nat, objectsUsed: nat)
    requires Expanded(l, ws, |ws|, copy[..], expand, objv[..], objectsNeeded - 1, 0)
    modifies objv
    ensures Expanded(l, ws, 0, copy[..], expand, objv[..], start - 1, objectsUsed)
  {
    objectsUsed := 0;
    var wordIdx, objIdx := |ws|, objectsNeeded - 1;
    while wordIdx > 0
      invariant 0 <= wordIdx <= |ws| && objIdx >= -1
      invariant Expanded(l, ws, wordIdx, copy[..], expand, objv[..], objIdx, objectsUsed)
    {
      wordIdx := wordIdx - 1;
      var used;
      objIdx, used := ExpandOne(l, ws, copy, objv, expand, wordIdx, objIdx, objectsUsed);
      objectsUsed := objectsUsed + used;
    }
    start := objIdx + 1;
  }

  // ----- the whole command

  /** The words made ready: the command from slot `start` on, or on an error the words before the bad one. */
  predicate Assembled(l: Lists, ws: seq<Word>, ok: bool, objs: seq<Obj>, start: nat, used: nat) {
    && start + used <= |objs|
    && (ok ==> AllGood(l, ws, |ws|) && objs[start..start + used] == Spliced(l, ws, 0))
    && (!ok ==> start == 0 && FirstBad(l, ws, used) && objs[..used] == Values(ws, used))
  }

  /** What the words come to: a command if all of them substitute to something that can be expanded where that is asked
      for; else the values of the words before the first that does not. */
  ghost predicate AsWritten(l: Lists, ws: seq<Word>, ok: bool, objs: seq<Obj>, start: nat, used: nat, at: seq<nat>) {
    && start + used <= |objs|
    && (ok <==> forall i | 0 <= i < |ws| :: ws[i].Word? && (ws[i].expand ==> ws[i].value in l))
    && (ok ==> InOrder(l, ws, objs[start..start + used], at))
    && (!ok ==> start == 0 && used < |ws| && (ws[used].Word? ==> ws[used].expand && ws[used].value !in l))
    && (!ok ==> forall i | 0 <= i < used :: ws[i].Word? && objs[i] == ws[i].value)
  }

  lemma AssembledAsWritten(l: Lists, ws: seq<Word>, ok: bool, objs: seq<Obj>, start: nat, used: nat) returns (at: seq<nat>)
    requires Assembled(l, ws, ok, objs, start, used)
    ensures AsWritten(l, ws, ok, objs, start, used, at)
  {
    at := Places(l, ws);
    if ok {
      SplicedInOrder(l, ws);
    } else {
      forall i | 0 <= i < used
        ensures ws[i].Word? && objs[i] == ws[i].value
      {
        ValueAt(ws, used, i);
        assert objs[i] == objs[..used][i];
      }
    }
  }

  lemma AsCollected(l: Lists, ws: seq<Word>, ok: bool, objs: seq<Obj>, flags: seq<bool>, used: nat)
    requires used <= |ws| && Stored(l, ws, used, objs, flags)
    requires if ok then used == |ws| && !Requested(ws, used) else FirstBad(l, ws, used)
    ensures Assembled(l, ws, ok, objs, 0, used)
  {
    assert Look(0);
    forall i | 0 <= i < used
      ensures objs[i] == Values(ws, used)[i]
    {
      ValueAt(ws, used, i);
    }
    assert objs[..used] == Values(ws, used);
    if ok {
      NothingSpliced(l, ws, 0);
    }
  }

  /** The expansion step: in the words' own array, or in a new one when the stack's `minObjs` slots are too few. */
  method ExpandCommand(l: Lists, ws: seq<Word>, copy: array<Obj>, expand: seq<bool>, minObjs: nat, objectsNeeded: nat)
    returns (objv: array<Obj>, start: nat, objectsUsed: nat)
    requires Stored(l, ws, |ws|, copy[..], expand) && objectsNeeded == RoomFor(l, ws, |ws|)
    requires |ws| <= minObjs ==> copy.Length == minObjs
    modifies copy
    ensures objv == copy || fresh(objv)
    ensures start == Empties(l, ws, 0) && Assembled(l, ws, true, objv[..], start, objectsUsed)
  {
    if |ws| > minObjs || objectsNeeded > minObjs {
      objv := new Obj[objectsNeeded](i => 0);
    } else {
      objv := copy;
    }
    ToExpand(l, ws, copy[..], expand, objv[..]);
    start, objectsUsed := ExpandWords(l, ws, copy, objv, expand, objectsNeeded);
    AllExpanded(l, ws, copy[..], expand, objv[..], start - 1, objectsUsed);
  }

  /** The words of a command put together, ready to be evaluated, in the array of `minObjs` slots on the stack unless
      that is too small. */
  method CommandWords(l: Lists, ws: seq<Word>, stackObjArray: array<Obj>)
    returns (ok: bool, objv: array<Obj>, start: nat, objectsUsed: nat, ghost at: seq<nat>)
    modifies stackObjArray
    ensures Assembled(l, ws, ok, objv[..], start, objectsUsed)
    ensures AsWritten(l, ws, ok, objv[..], start, objectsUsed, at)
    ensures objv == stackObjArray || fresh(objv)
  {
    var minObjs := stackObjArray.Length;
    objv := stackObjArray;
    if |ws| > minObjs {
      objv := new Obj[|ws|](i => 0);
    }
    start := 0;
    var objectsNeeded, expandRequested, expand;
    ok, objectsUsed, objectsNeeded, expandRequested, expand := CollectWords(l, ws, objv);
    if ok && expandRequested {
      objv, start, objectsUsed := ExpandCommand(l, ws, objv, expand, minObjs, objectsNeeded);
    } else {
      AsCollected(l, ws, ok, objv[..], expand, objectsUsed);
    }
    at := AssembledAsWritten(l, ws, ok, objv[..], start, objectsUsed);
  }

  lemma {:induction false} NothingSpliced(l: Lists, ws: seq<Word>, i: nat)
    requires i <= |ws| && AllGood(l, ws, |ws|) && !Requested(ws, |ws|)
    ensures Spliced(l, ws, i) == Values(ws, |ws|)[i..]
    decreases |ws| - i
  {
    if i < |ws| {
      NothingSpliced(l, ws, i + 1);
      ValueAt(ws, |ws|, i);
    }
  }
}
