/** Regular expression matching by sets of end positions (libc/regex.c:36-57, 452-668, 709-746). */
module Regex {
  import opened Words

  /** The syntax tree. A class is the 32-byte bitmap of its members. */
  datatype Node =
    | Empty | Literal(ch: Byte) | Dot | Class(cls: seq<Byte>, negate: bool) | Bol | Eol | WordStart | WordEnd
    | Concat(left: Node, right: Node) | Alt(left: Node, right: Node) | Star(child: Node) | Plus(child: Node) | Qmark(child: Node)

  datatype Flags = Flags(icase: bool, notBol: bool, notEol: bool)

  const CAPACITY := 256
  const NEWLINE := 10

  predicate IsWordChar(c: Byte) {
    'a' as int <= c <= 'z' as int || 'A' as int <= c <= 'Z' as int || '0' as int <= c <= '9' as int || c == '_' as int
  }

  function Lower(c: int): int {
    if 'A' as int <= c <= 'Z' as int then c - 'A' as int + 'a' as int else c
  }

  predicate CharEq(a: Byte, b: Byte, icase: bool) {
    if icase then Lower(a) == Lower(b) else a == b
  }

  predicate InClass(cls: seq<Byte>, c: Byte) {
    |cls| == 32 && cls[c / 8] / Pow2(c % 8) % 2 == 1
  }

  // ---- what a tree stands for ----

  /** Does the tree match s from position i to position j? Anchors look at the rest of the string. */
  ghost predicate Matches(n: Node, s: seq<Byte>, f: Flags, i: int, j: int)
    decreases n, 0, 0
  {
    && 0 <= i <= |s| && 0 <= j <= |s|
    && match n
       case Empty => j == i
       case Literal(c) => i < |s| && j == i + 1 && CharEq(s[i], c, f.icase)
       case Dot => i < |s| && j == i + 1 && s[i] != NEWLINE
       case Class(cls, negate) => i < |s| && j == i + 1 && InClass(cls, s[i]) != negate
       case Bol => j == i && i == 0 && !f.notBol
       case Eol => j == i && i == |s| && !f.notEol
       case WordStart => j == i && i < |s| && IsWordChar(s[i]) && (i == 0 || !IsWordChar(s[i - 1]))
       case WordEnd => j == i && i > 0 && IsWordChar(s[i - 1]) && (i == |s| || !IsWordChar(s[i]))
       case Concat(l, r) => exists m :: Matches(l, s, f, i, m) && Matches(r, s, f, m, j)
       case Alt(l, r) => Matches(l, s, f, i, j) || Matches(r, s, f, i, j)
       case Star(c) => Closure(c, s, f, i, j)
       case Plus(c) => exists m :: Matches(c, s, f, i, m) && Closure(c, s, f, m, j)
       case Qmark(c) => j == i || Matches(c, s, f, i, j)
  }

  /** k repetitions. */
  ghost predicate Steps(c: Node, s: seq<Byte>, f: Flags, i: int, j: int, k: nat)
    decreases c, 1, k
  {
    && 0 <= i <= |s| && 0 <= j <= |s|
    && if k == 0 then i == j else exists m :: Matches(c, s, f, i, m) && Steps(c, s, f, m, j, k - 1)
  }

  /** Any number of repetitions: the reflexive and transitive closure. */
  ghost predicate Closure(c: Node, s: seq<Byte>, f: Flags, i: int, j: int)
    decreases c, 2, 0
  {
    exists k: nat :: Steps(c, s, f, i, j, k)
  }

  lemma {:induction false} StepsAppend(c: Node, s: seq<Byte>, f: Flags, i: int, p: int, j: int, k: nat)
    requires Steps(c, s, f, i, p, k) && Matches(c, s, f, p, j)
    ensures Steps(c, s, f, i, j, k + 1)
    decreases k
  {
    if k == 0 {
      assert Steps(c, s, f, j, j, 0);
    } else {
      var m :| Matches(c, s, f, i, m) && Steps(c, s, f, m, p, k - 1);
      StepsAppend(c, s, f, m, p, j, k - 1);
    }
  }

  lemma ClosureExtends(c: Node, s: seq<Byte>, f: Flags, i: int, p: int, j: int)
    requires Closure(c, s, f, i, p) && Matches(c, s, f, p, j)
    ensures Closure(c, s, f, i, j)
  {
    var k: nat :| Steps(c, s, f, i, p, k);
    StepsAppend(c, s, f, i, p, j, k);
  }

  /** A set of positions closed under one repetition holds everything reachable from inside it. */
  lemma {:induction false} ClosedHolds(c: Node, s: seq<Byte>, f: Flags, q: seq<int>, i: int, j: int, k: nat)
    requires i in q && Steps(c, s, f, i, j, k)
    requires forall a, b :: a in q && Matches(c, s, f, a, b) ==> b in q
    ensures j in q
    decreases k
  {
    if k > 0 {
      var m :| Matches(c, s, f, i, m) && Steps(c, s, f, m, j, k - 1);
      ClosedHolds(c, s, f, q, m, j, k - 1);
    }
  }

  lemma ClosureIn(c: Node, s: seq<Byte>, f: Flags, q: seq<int>, i: int, j: int)
    requires i in q && Closure(c, s, f, i, j)
    requires forall a, b :: a in q && Matches(c, s, f, a, b) ==> b in q
    ensures j in q
  {
    var k: nat :| Steps(c, s, f, i, j, k);
    ClosedHolds(c, s, f, q, i, j, k);
  }

  // ---- result lists ----

  ghost predicate InString(outs: seq<int>, len: nat) {
    forall e :: e in outs ==> 0 <= e <= len
  }

  /** Distinct positions of a string of length len: at most len + 1 of them. */
  lemma PositionsFit(outs: seq<int>, len: nat)
    requires Distinct(outs) && InString(outs, len)
    ensures |outs| <= len + 1
  {
    DistinctCount(outs);
    BelowCount(len + 1);
    SubsetCount(Elements(outs), Below(len + 1));
  }

  /** One more result: no duplicates, and nothing beyond the capacity. */
  ghost function Added(outs: seq<int>, cap: nat, pos: int): (r: seq<int>)
    ensures outs <= r && (Distinct(outs) ==> Distinct(r)) && (|outs| <= cap ==> |r| <= cap)
    ensures forall e :: e in r <==> e in outs || (e == pos && pos >= 0 && |outs| < cap)
  {
    if pos < 0 || pos in outs || |outs| >= cap then outs else outs + [pos]
  }

  ghost function AddedAll(outs: seq<int>, cap: nat, list: seq<int>): (r: seq<int>)
    ensures outs <= r && (Distinct(outs) ==> Distinct(r)) && (|outs| <= cap ==> |r| <= cap)
    ensures forall e :: e in r ==> e in outs || e in list
    decreases |list|
  {
    if list == [] then outs else AddedAll(Added(outs, cap, list[0]), cap, list[1..])
  }

  /** None is lost if the string is shorter than the capacity. */
  lemma {:induction false} AddedFits(outs: seq<int>, cap: nat, list: seq<int>, len: nat)
    requires Distinct(outs) && InString(outs, len) && InString(list, len) && len < cap && |outs| <= cap
    ensures forall e :: e in outs || e in list ==> e in AddedAll(outs, cap, list)
    decreases |list|
  {
    if list == [] {
      assert AddedAll(outs, cap, list) == outs;
    } else {
      var e, more := list[0], Added(outs, cap, list[0]);
      assert e in list && list == [e] + list[1..];
      assert forall x :: x in list[1..] ==> x in list;
      if e !in outs {
        assert Distinct(outs + [e]);
        PositionsFit(outs + [e], len);
      }
      AddedFits(more, cap, list[1..], len);
    }
  }

  /** out_add */
  method OutAdd(outs0: seq<int>, cap: nat, pos: int) returns (outs: seq<int>)
    ensures outs == Added(outs0, cap, pos)
  {
    outs := outs0;
    if pos < 0 { return; }
    for i := 0 to |outs|
      invariant pos !in outs[..i]
    {
      if outs[i] == pos { return; }
    }
    if |outs| < cap { outs := outs + [pos]; }
  }

  method AddAll(outs0: seq<int>, cap: nat, list: seq<int>) returns (outs: seq<int>)
    ensures outs == AddedAll(outs0, cap, list)
  {
    hide Added;
    outs := outs0;
    assert list[0..] == list;
    for i := 0 to |list|
      invariant AddedAll(outs, cap, list[i..]) == AddedAll(outs0, cap, list)
    {
      assert list[i..][1..] == list[i + 1..];
      outs := OutAdd(outs, cap, list[i]);
    }
  }

  // ---- the lists that the code returns ----

  /** The end of a leaf, or a negative number. */
  function LeafEnd(n: Node, s: seq<Byte>, f: Flags, pos: nat): int
    requires pos <= |s|
  {
    match n
    case Empty => pos
    case Literal(c) => if pos < |s| && CharEq(s[pos], c, f.icase) then pos + 1 else -1
    case Dot => if pos < |s| && s[pos] != NEWLINE then pos + 1 else -1
    case Class(cls, negate) => if pos < |s| && InClass(cls, s[pos]) != negate then pos + 1 else -1
    case Bol => if pos == 0 && !f.notBol then pos else -1
    case Eol => if pos == |s| && !f.notEol then pos else -1
    case WordStart => if (pos == 0 || !IsWordChar(s[pos - 1])) && pos < |s| && IsWordChar(s[pos]) then pos else -1
    case WordEnd => if pos > 0 && IsWordChar(s[pos - 1]) && (pos == |s| || !IsWordChar(s[pos])) then pos else -1
    case _ => -1
  }

  /** Every list that match_all returns, in its order, on strings of any length. */
  ghost function Ends(n: Node, s: seq<Byte>, f: Flags, pos: int, cap: nat): (r: seq<int>)
    requires 0 <= pos <= |s|
    ensures Distinct(r) && InString(r, |s|) && |r| <= cap
    decreases n, 0, 0
  {
    match n
    case Alt(left, right) => AddedAll(AddedAll([], cap, Ends(left, s, f, pos, CAPACITY)), cap, Ends(right, s, f, pos, CAPACITY))
    case Concat(left, right) => Through(right, false, s, f, Ends(left, s, f, pos, CAPACITY), [], cap)
    case Star(c) => Cut(Reached(c, s, f, [pos], 0), cap)
    case Plus(c) => Through(c, true, s, f, Ends(c, s, f, pos, CAPACITY), [], cap)
    case Qmark(c) => AddedAll(Added([], cap, pos), cap, Ends(c, s, f, pos, CAPACITY))
    case _ => Added([], cap, LeafEnd(n, s, f, pos))
  }

  /** From each of the positions `mids` on, with n or with any number of repetitions of n. */
  ghost function Through(n: Node, star: bool, s: seq<Byte>, f: Flags, mids: seq<int>, outs: seq<int>, cap: nat): (r: seq<int>)
    requires InString(mids, |s|) && Distinct(outs) && InString(outs, |s|) && |outs| <= cap
    ensures Distinct(r) && InString(r, |s|) && |r| <= cap
    decreases n, 2, |mids|
  {
    if mids == [] then outs
    else
      assert mids[0] in mids && forall x :: x in mids[1..] ==> x in mids;
      var tail := if star then Cut(Reached(n, s, f, [mids[0]], 0), CAPACITY) else Ends(n, s, f, mids[0], CAPACITY);
      Through(n, star, s, f, mids[1..], AddedAll(outs, cap, tail), cap)
  }

  /** Positions in the order in which the search from queue[qh] on reaches them. */
  ghost function Reached(c: Node, s: seq<Byte>, f: Flags, queue: seq<int>, qh: nat): (r: seq<int>)
    requires Distinct(queue) && InString(queue, |s|) && qh <= |queue|
    ensures Distinct(r) && InString(r, |s|) && queue <= r
    decreases c, 1, |s| + 1 - qh
  {
    PositionsFit(queue, |s|);
    if qh == |queue| then queue
    else
      assert queue[qh] in queue;
      Reached(c, s, f, AddedAll(queue, |s| + 1, Ends(c, s, f, queue[qh], CAPACITY)), qh + 1)
  }

  function Cut(s: seq<int>, cap: nat): (r: seq<int>)
    ensures r <= s && |r| <= cap && (|s| <= cap ==> r == s)
    ensures (Distinct(s) ==> Distinct(r)) && forall e :: e in r ==> e in s
  {
    if |s| <= cap then s else s[..cap]
  }

  // ---- what the lists hold ----

  /** A result list of match_all: no duplicates, only ends of matches, and all of them if the string is shorter than the capacity. */
  ghost predicate Result(n: Node, s: seq<Byte>, f: Flags, pos: int, outs: seq<int>, cap: nat) {
    && Distinct(outs) && |outs| <= cap && InString(outs, |s|)
    && (forall e :: e in outs ==> Matches(n, s, f, pos, e))
    && (|s| < CAPACITY <= cap ==> forall e :: Matches(n, s, f, pos, e) ==> e in outs)
  }

  lemma {:induction false} EndsResult(n: Node, s: seq<Byte>, f: Flags, pos: int, cap: nat)
    requires 0 <= pos <= |s|
    ensures Result(n, s, f, pos, Ends(n, s, f, pos, cap), cap)
    decreases n, 0, 0
  {
    hide Matches, Result, AddedAll, Added, Through, Reached;
    match n
    case Alt(left, right) =>
      EndsResult(left, s, f, pos, CAPACITY);
      EndsResult(right, s, f, pos, CAPACITY);
      AltResult(left, right, s, f, pos, cap, Ends(left, s, f, pos, CAPACITY), Ends(right, s, f, pos, CAPACITY));
    case Concat(left, right) =>
      var mids := Ends(left, s, f, pos, CAPACITY);
      EndsResult(left, s, f, pos, CAPACITY);
      ThroughResult(right, false, s, f, mids, [], cap);
      CarriedThrough(right, false, s, f, mids, Through(right, false, s, f, mids, [], cap), cap);
      ConcatResult(left, right, s, f, pos, cap, mids, Through(right, false, s, f, mids, [], cap));
    case Star(c) =>
      StarResult(c, s, f, pos, cap);
    case Plus(c) =>
      var mids := Ends(c, s, f, pos, CAPACITY);
      EndsResult(c, s, f, pos, CAPACITY);
      ThroughResult(c, true, s, f, mids, [], cap);
      CarriedThrough(c, true, s, f, mids, Through(c, true, s, f, mids, [], cap), cap);
      PlusResult(c, s, f, pos, cap, mids, Through(c, true, s, f, mids, [], cap));
    case Qmark(c) =>
      EndsResult(c, s, f, pos, CAPACITY);
      QmarkResult(c, s, f, pos, cap, Ends(c, s, f, pos, CAPACITY));
    case _ =>
      LeafResult(n, s, f, pos, cap);
  }

  lemma LeafResult(n: Node, s: seq<Byte>, f: Flags, pos: nat, cap: nat)
    requires pos <= |s| && !n.Alt? && !n.Concat? && !n.Star? && !n.Plus? && !n.Qmark?
    ensures Result(n, s, f, pos, Added([], cap, LeafEnd(n, s, f, pos)), cap)
  {
  }

  lemma AltResult(left: Node, right: Node, s: seq<Byte>, f: Flags, pos: int, cap: nat, l: seq<int>, r: seq<int>)
    requires Result(left, s, f, pos, l, CAPACITY) && Result(right, s, f, pos, r, CAPACITY)
    ensures Result(Alt(left, right), s, f, pos, AddedAll(AddedAll([], cap, l), cap, r), cap)
  {
    hide Matches, AddedAll;
    forall e ensures Matches(Alt(left, right), s, f, pos, e) <==> Matches(left, s, f, pos, e) || Matches(right, s, f, pos, e) {
      MatchesAlt(left, right, s, f, pos, e);
    }
    if |s| < cap {
      AddedFits([], cap, l, |s|);
      AddedFits(AddedAll([], cap, l), cap, r, |s|);
    }
  }

  lemma MatchesAlt(left: Node, right: Node, s: seq<Byte>, f: Flags, i: int, j: int)
    ensures Matches(Alt(left, right), s, f, i, j) <==> Matches(left, s, f, i, j) || Matches(right, s, f, i, j)
  {
    OutOfString(left, s, f);
    OutOfString(right, s, f);
  }

  lemma ConcatResult(left: Node, right: Node, s: seq<Byte>, f: Flags, pos: int, cap: nat, mids: seq<int>, r: seq<int>)
    requires Result(left, s, f, pos, mids, CAPACITY) && Carried(right, false, s, f, mids, r, cap)
    requires Distinct(r) && |r| <= cap && InString(r, |s|)
    ensures Result(Concat(left, right), s, f, pos, r, cap)
  {
    hide Matches;
    forall e ensures Matches(Concat(left, right), s, f, pos, e) <==> exists m :: Matches(left, s, f, pos, m) && Matches(right, s, f, m, e) {
      MatchesConcat(Concat(left, right), s, f, pos, e);
    }
    forall e | e in r ensures Matches(Concat(left, right), s, f, pos, e) {
      var m :| m in mids && Tail(right, false, s, f, m, e);
    }
  }

  lemma MatchesConcat(n: Node, s: seq<Byte>, f: Flags, i: int, j: int)
    requires n.Concat?
    ensures Matches(n, s, f, i, j) <==> exists m :: Matches(n.left, s, f, i, m) && Matches(n.right, s, f, m, j)
  {
    if m :| Matches(n.left, s, f, i, m) && Matches(n.right, s, f, m, j) {
      InRange(n.left, s, f, i, m);
      InRange(n.right, s, f, m, j);
      assert Matches(n.left, s, f, i, m) && Matches(n.right, s, f, m, j);
      assert Matches(n, s, f, i, j);
    }
  }

  lemma InRange(n: Node, s: seq<Byte>, f: Flags, i: int, j: int)
    requires Matches(n, s, f, i, j)
    ensures 0 <= i <= |s| && 0 <= j <= |s|
  {
  }

  lemma PlusResult(c: Node, s: seq<Byte>, f: Flags, pos: int, cap: nat, mids: seq<int>, r: seq<int>)
    requires Result(c, s, f, pos, mids, CAPACITY) && Carried(c, true, s, f, mids, r, cap)
    requires Distinct(r) && |r| <= cap && InString(r, |s|)
    ensures Result(Plus(c), s, f, pos, r, cap)
  {
    hide Matches, Closure;
    forall e ensures Matches(Plus(c), s, f, pos, e) <==> exists m :: Matches(c, s, f, pos, m) && Closure(c, s, f, m, e) {
      MatchesPlus(Plus(c), s, f, pos, e);
    }
    forall e | e in r ensures Matches(Plus(c), s, f, pos, e) {
      var m :| m in mids && Tail(c, true, s, f, m, e);
    }
  }

  lemma MatchesPlus(n: Node, s: seq<Byte>, f: Flags, i: int, j: int)
    requires n.Plus?
    ensures Matches(n, s, f, i, j) <==> exists m :: Matches(n.child, s, f, i, m) && Closure(n.child, s, f, m, j)
  {
    hide Closure;
    if m :| Matches(n.child, s, f, i, m) && Closure(n.child, s, f, m, j) {
      InRange(n.child, s, f, i, m);
      ClosureRange(n.child, s, f, m, j);
      assert Matches(n.child, s, f, i, m) && Closure(n.child, s, f, m, j);
      assert Matches(n, s, f, i, j);
    }
  }

  lemma QmarkResult(c: Node, s: seq<Byte>, f: Flags, pos: int, cap: nat, r: seq<int>)
    requires 0 <= pos <= |s| && Result(c, s, f, pos, r, CAPACITY)
    ensures Result(Qmark(c), s, f, pos, AddedAll(Added([], cap, pos), cap, r), cap)
  {
    hide Matches, AddedAll;
    forall e ensures Matches(Qmark(c), s, f, pos, e) <==> e == pos || Matches(c, s, f, pos, e) { MatchesQmark(c, s, f, pos, e); }
    if |s| < cap { AddedFits(Added([], cap, pos), cap, r, |s|); }
  }

  lemma MatchesQmark(c: Node, s: seq<Byte>, f: Flags, i: int, j: int)
    requires 0 <= i <= |s|
    ensures Matches(Qmark(c), s, f, i, j) <==> j == i || Matches(c, s, f, i, j)
  {
    OutOfString(c, s, f);
  }

  lemma OutOfString(n: Node, s: seq<Byte>, f: Flags)
    ensures forall i, j :: Matches(n, s, f, i, j) ==> 0 <= i <= |s| && 0 <= j <= |s|
  {
  }

  /** n, or any number of repetitions of it. */
  ghost predicate Tail(n: Node, star: bool, s: seq<Byte>, f: Flags, i: int, j: int) {
    if star then Closure(n, s, f, i, j) else Matches(n, s, f, i, j)
  }

  /** The ends behind some positions: nothing else, and all of them if the string is shorter than the capacity. */
  ghost predicate Carried(n: Node, star: bool, s: seq<Byte>, f: Flags, mids: seq<int>, r: seq<int>, cap: nat) {
    && (forall e :: e in r ==> exists m :: m in mids && Tail(n, star, s, f, m, e))
    && (|s| < CAPACITY <= cap ==> forall m, e :: m in mids && Tail(n, star, s, f, m, e) ==> e in r)
  }

  lemma CarriedThrough(n: Node, star: bool, s: seq<Byte>, f: Flags, mids: seq<int>, r: seq<int>, cap: nat)
    requires forall e :: e in r ==> e in [] || exists m :: m in mids && Tail(n, star, s, f, m, e)
    requires |s| < CAPACITY <= cap ==> forall m, e :: m in mids && Tail(n, star, s, f, m, e) ==> e in r
    ensures Carried(n, star, s, f, mids, r, cap)
  {
    hide Tail;
  }

  lemma {:induction false} ThroughResult(n: Node, star: bool, s: seq<Byte>, f: Flags, mids: seq<int>, outs: seq<int>, cap: nat)
    requires InString(mids, |s|) && Distinct(outs) && InString(outs, |s|) && |outs| <= cap
    ensures forall e :: e in Through(n, star, s, f, mids, outs, cap) ==> e in outs || exists m :: m in mids && Tail(n, star, s, f, m, e)
    ensures |s| < CAPACITY <= cap ==> forall e :: e in outs ==> e in Through(n, star, s, f, mids, outs, cap)
    ensures |s| < CAPACITY <= cap ==> forall m, e :: m in mids && Tail(n, star, s, f, m, e) ==> e in Through(n, star, s, f, mids, outs, cap)
    decreases n, 2, |mids|
  {
    hide Matches, Closure, Ends, Reached;
    if mids != [] {
      var m := mids[0];
      assert m in mids && mids == [m] + mids[1..] && forall x :: x in mids[1..] ==> x in mids;
      var tail := if star then Cut(Reached(n, s, f, [m], 0), CAPACITY) else Ends(n, s, f, m, CAPACITY);
      if star { StarResult(n, s, f, m, CAPACITY); } else { EndsResult(n, s, f, m, CAPACITY); }
      forall e ensures e in tail ==> Tail(n, star, s, f, m, e) { if star { StarIs(n, s, f, m, e); } }
      if |s| < CAPACITY <= cap {
        forall e ensures Tail(n, star, s, f, m, e) ==> e in tail { if star { StarIs(n, s, f, m, e); } }
        AddedFits(outs, cap, tail, |s|);
      }
      ThroughResult(n, star, s, f, mids[1..], AddedAll(outs, cap, tail), cap);
    }
  }

  lemma StarResult(c: Node, s: seq<Byte>, f: Flags, pos: int, cap: nat)
    requires 0 <= pos <= |s|
    ensures Result(Star(c), s, f, pos, Cut(Reached(c, s, f, [pos], 0), cap), cap)
    decreases c, 2, 0
  {
    hide Matches, Ends, Reached;
    assert Steps(c, s, f, pos, pos, 0);
    ReachedResult(c, s, f, pos, [pos], 0);
    var all := Reached(c, s, f, [pos], 0);
    PositionsFit(all, |s|);
    forall e ensures Matches(Star(c), s, f, pos, e) <==> Closure(c, s, f, pos, e) { StarIs(c, s, f, pos, e); }
  }

  /** A search under way: positions that repetitions reach, with all that one more reaches from the first qh, if no list is cut. */
  ghost predicate Sought(c: Node, s: seq<Byte>, f: Flags, start: int, queue: seq<int>, qh: nat) {
    && Distinct(queue) && InString(queue, |s|) && qh <= |queue| && start in queue
    && (forall q :: q in queue ==> Closure(c, s, f, start, q))
    && (|s| < CAPACITY ==> forall a, e :: 0 <= a < qh && Matches(c, s, f, queue[a], e) ==> e in queue)
  }

  lemma SoughtNext(c: Node, s: seq<Byte>, f: Flags, start: int, queue: seq<int>, qh: nat, mids: seq<int>)
    requires Sought(c, s, f, start, queue, qh) && qh < |queue| && Result(c, s, f, queue[qh], mids, CAPACITY)
    ensures Sought(c, s, f, start, AddedAll(queue, |s| + 1, mids), qh + 1)
  {
    hide Matches, Closure, AddedAll;
    PositionsFit(queue, |s|);
    AddedFits(queue, |s| + 1, mids, |s|);
    var p, more := queue[qh], AddedAll(queue, |s| + 1, mids);
    assert p in queue && start in more;
    forall q | q in more ensures Closure(c, s, f, start, q) && 0 <= q <= |s| {
      if q !in queue { ClosureExtends(c, s, f, start, p, q); }
    }
    forall a, e | |s| < CAPACITY && 0 <= a < qh + 1 && Matches(c, s, f, more[a], e) ensures e in more { assert more[a] == queue[a]; }
  }

  lemma SoughtAll(c: Node, s: seq<Byte>, f: Flags, start: int, queue: seq<int>)
    requires Sought(c, s, f, start, queue, |queue|)
    ensures |s| < CAPACITY ==> forall e :: Closure(c, s, f, start, e) ==> e in queue
  {
    hide Matches, Closure;
    if |s| < CAPACITY {
      forall e | Closure(c, s, f, start, e) ensures e in queue { ClosureIn(c, s, f, queue, start, e); }
    }
  }

  lemma SoughtParts(c: Node, s: seq<Byte>, f: Flags, start: int, queue: seq<int>, qh: nat)
    requires Sought(c, s, f, start, queue, qh)
    ensures Distinct(queue) && InString(queue, |s|) && qh <= |queue| <= |s| + 1
    ensures forall q :: q in queue ==> Closure(c, s, f, start, q)
    ensures qh < |queue| ==> 0 <= queue[qh] <= |s|
  {
    PositionsFit(queue, |s|);
    if qh < |queue| { assert queue[qh] in queue; }
  }

  /** The search reaches only what repetitions reach, and all of it if no list along the way is cut. */
  lemma {:induction false} ReachedResult(c: Node, s: seq<Byte>, f: Flags, start: int, queue: seq<int>, qh: nat)
    requires Sought(c, s, f, start, queue, qh)
    ensures Distinct(queue) && InString(queue, |s|) && qh <= |queue|
    ensures forall q :: q in Reached(c, s, f, queue, qh) ==> Closure(c, s, f, start, q)
    ensures |s| < CAPACITY ==> forall e :: Closure(c, s, f, start, e) ==> e in Reached(c, s, f, queue, qh)
    decreases c, 1, |s| + 1 - qh
  {
    hide Matches, Closure, Ends, Sought, Result, AddedAll;
    SoughtParts(c, s, f, start, queue, qh);
    if qh == |queue| {
      SoughtAll(c, s, f, start, queue);
    } else {
      var mids := Ends(c, s, f, queue[qh], CAPACITY);
      EndsResult(c, s, f, queue[qh], CAPACITY);
      SoughtNext(c, s, f, start, queue, qh, mids);
      ReachedResult(c, s, f, start, AddedAll(queue, |s| + 1, mids), qh + 1);
    }
  }

  lemma ClosureRange(c: Node, s: seq<Byte>, f: Flags, i: int, j: int)
    requires Closure(c, s, f, i, j)
    ensures 0 <= i <= |s| && 0 <= j <= |s|
  {
    var k: nat :| Steps(c, s, f, i, j, k);
  }

  lemma StarIs(c: Node, s: seq<Byte>, f: Flags, i: int, j: int)
    ensures Matches(Star(c), s, f, i, j) <==> Closure(c, s, f, i, j)
  {
    if Closure(c, s, f, i, j) { ClosureRange(c, s, f, i, j); }
  }

  // ---- match_all ----

  /** The queue of match_star: each position once, marked as seen, and the results are its first ones. */
  ghost predicate Queued(queue: seq<int>, seen: seq<bool>, outs: seq<int>, cap: nat, len: nat) {
    && Distinct(queue) && InString(queue, len) && |seen| == len + 1 && outs == Cut(queue, cap)
    && (forall p :: 0 <= p <= len ==> (seen[p] <==> p in queue))
  }

  lemma Enqueue(queue: seq<int>, seen: seq<bool>, outs: seq<int>, cap: nat, len: nat, e: nat)
    requires Queued(queue, seen, outs, cap, len) && e <= len && !seen[e]
    ensures Added(queue, len + 1, e) == queue + [e]
    ensures Queued(queue + [e], seen[e := true], Added(outs, cap, e), cap, len)
  {
    assert e !in queue;
    assert Distinct(queue + [e]);
    PositionsFit(queue + [e], len);
    assert forall x :: x in outs ==> x in queue;
    if |queue| > cap { assert (queue + [e])[..cap] == queue[..cap]; }
  }

  lemma NotQueued(queue: seq<int>, seen: seq<bool>, outs: seq<int>, cap: nat, len: nat, e: nat)
    requires Queued(queue, seen, outs, cap, len) && e <= len && seen[e]
    ensures Added(queue, len + 1, e) == queue
  {
  }

  /** The inner loop of match_star: new positions reached from p join the queue. */
  method Expand(queue0: seq<int>, seen: array<bool>, outs0: seq<int>, cap: nat, len: nat, p: int, mids: seq<int>)
    returns (queue: seq<int>, outs: seq<int>)
    requires Queued(queue0, seen[..], outs0, cap, len) && p in queue0 && InString(mids, len)
    modifies seen
    ensures queue == AddedAll(queue0, len + 1, mids) && Queued(queue, seen[..], outs, cap, len)
  {
    hide Queued, Added;
    QueuedParts(queue0, seen[..], outs0, cap, len);
    queue, outs := queue0, outs0;
    assert mids[0..] == mids;
    for i := 0 to |mids|
      invariant Queued(queue, seen[..], outs, cap, len) && queue0 <= queue && seen.Length == len + 1
      invariant AddedAll(queue, len + 1, mids[i..]) == AddedAll(queue0, len + 1, mids)
    {
      var np := mids[i];
      assert np in mids;
      assert mids[i..][1..] == mids[i + 1..];
      assert p in queue by { assert queue[..|queue0|] == queue0; }
      SeenAt(queue, seen[..], outs, cap, len, p);
      if np < 0 || np > len { continue; }
      if seen[np] { NotQueued(queue, seen[..], outs, cap, len, np); }
      if np == p { continue; }
      if !seen[np] {
        ghost var was := seen[..];
        Enqueue(queue, was, outs, cap, len, np);
        seen[np] := true;
        assert seen[..] == was[np := true];
        queue := queue + [np];
        outs := OutAdd(outs, cap, np);
      }
    }
  }

  lemma QueuedParts(queue: seq<int>, seen: seq<bool>, outs: seq<int>, cap: nat, len: nat)
    requires Queued(queue, seen, outs, cap, len)
    ensures |seen| == len + 1 && Distinct(queue) && InString(queue, len) && |queue| <= len + 1 && outs == Cut(queue, cap)
  {
    PositionsFit(queue, len);
  }

  lemma SeenAt(queue: seq<int>, seen: seq<bool>, outs: seq<int>, cap: nat, len: nat, p: int)
    requires Queued(queue, seen, outs, cap, len) && p in queue
    ensures 0 <= p <= len && |seen| == len + 1 && seen[p]
  {
  }

  /** match_star: breadth first from start, the results cut at the capacity. */
  method MatchStar(c: Node, s: seq<Byte>, f: Flags, start: nat, cap: nat) returns (outs: seq<int>)
    requires start <= |s|
    ensures outs == Cut(Reached(c, s, f, [start], 0), cap)
    decreases c, 2
  {
    hide Queued, Matches, Ends, Result, Reached, AddedAll, InString, Added, Distinct;
    OneQueued(start, |s|);
    var seen := new bool[|s| + 1](_ => false);
    seen[start] := true;
    var queue, qh := [start], 0;
    outs := OutAdd([], cap, start);
    QueueStarts(start, seen[..], cap, |s|);
    while qh < |queue|
      invariant qh <= |queue| <= |s| + 1 && Queued(queue, seen[..], outs, cap, |s|)
      invariant Distinct(queue) && InString(queue, |s|) && Reached(c, s, f, queue, qh) == Reached(c, s, f, [start], 0)
      decreases |s| + 1 - qh
    {
      var p := queue[qh];
      ReachedNext(c, s, f, queue, qh);
      var mids := MatchAll(c, s, f, p, CAPACITY);
      queue, outs := Expand(queue, seen, outs, cap, |s|, p, mids);
      QueuedParts(queue, seen[..], outs, cap, |s|);
      qh := qh + 1;
    }
    QueuedParts(queue, seen[..], outs, cap, |s|);
    ReachedEnd(c, s, f, queue);
  }

  lemma OneQueued(start: nat, len: nat)
    requires start <= len
    ensures Distinct([start as int]) && InString([start], len)
  {
  }

  lemma ReachedNext(c: Node, s: seq<Byte>, f: Flags, queue: seq<int>, qh: nat)
    requires Distinct(queue) && InString(queue, |s|) && qh < |queue|
    ensures 0 <= queue[qh] <= |s| && queue[qh] in queue && InString(Ends(c, s, f, queue[qh], CAPACITY), |s|)
    ensures var more := AddedAll(queue, |s| + 1, Ends(c, s, f, queue[qh], CAPACITY));
            Distinct(more) && InString(more, |s|) && qh < |more| && Reached(c, s, f, queue, qh) == Reached(c, s, f, more, qh + 1)
  {
    assert queue[qh] in queue;
  }

  lemma ReachedEnd(c: Node, s: seq<Byte>, f: Flags, queue: seq<int>)
    requires Distinct(queue) && InString(queue, |s|)
    ensures Reached(c, s, f, queue, |queue|) == queue
  {
  }

  lemma QueueStarts(start: nat, seen: seq<bool>, cap: nat, len: nat)
    requires start <= len == |seen| - 1 && forall p :: 0 <= p <= len ==> seen[p] == (p == start)
    ensures Queued([start], seen, Added([], cap, start), cap, len)
  {
  }

  /** match_all: on every string the list is the one specified, holds only ends of matches, and all of them below 256 bytes. */
  method MatchAll(n: Node, s: seq<Byte>, f: Flags, pos: nat, cap: nat) returns (outs: seq<int>)
    requires pos <= |s|
    ensures outs == Ends(n, s, f, pos, cap) && Result(n, s, f, pos, outs, cap)
    decreases n, 1
  {
    hide Matches, Result, Reached;
    EndsResult(n, s, f, pos, cap);
    match n
    case Alt(l, r) =>
      var left := MatchAll(l, s, f, pos, CAPACITY);
      var right := MatchAll(r, s, f, pos, CAPACITY);
      outs := AddAll([], cap, left);
      outs := AddAll(outs, cap, right);
    case Concat(l, r) =>
      var mids := MatchAll(l, s, f, pos, CAPACITY);
      outs := MatchThrough(r, false, s, f, mids, cap);
    case Star(c) =>
      outs := MatchStar(c, s, f, pos, cap);
    case Plus(c) =>
      var mids := MatchAll(c, s, f, pos, CAPACITY);
      outs := MatchThrough(c, true, s, f, mids, cap);
    case Qmark(c) =>
      outs := OutAdd([], cap, pos);
      var mids := MatchAll(c, s, f, pos, CAPACITY);
      outs := AddAll(outs, cap, mids);
    case _ =>
      outs := OutAdd([], cap, LeafEnd(n, s, f, pos));
  }

  /** The loops of concatenation and of one or more repetitions. */
  method MatchThrough(n: Node, star: bool, s: seq<Byte>, f: Flags, mids: seq<int>, cap: nat) returns (outs: seq<int>)
    requires InString(mids, |s|)
    ensures outs == Through(n, star, s, f, mids, [], cap)
    decreases n, 3
  {
    hide Matches, Result, Reached, Ends, AddedAll, InString;
    outs := [];
    assert mids[0..] == mids;
    NoneIn(|s|);
    for i := 0 to |mids|
      invariant Distinct(outs) && InString(outs, |s|) && |outs| <= cap && InString(mids[i..], |s|) && InString(mids, |s|)
      invariant Through(n, star, s, f, mids[i..], outs, cap) == Through(n, star, s, f, mids, [], cap)
    {
      assert mids[i..][0] == mids[i] && mids[i..][1..] == mids[i + 1..];
      SuffixIn(mids, i, |s|);
      var tail;
      if star {
        tail := MatchStar(n, s, f, mids[i], CAPACITY);
      } else {
        tail := MatchAll(n, s, f, mids[i], CAPACITY);
      }
      CutIn(Reached(n, s, f, [mids[i]], 0), CAPACITY, |s|);
      AddedIn(outs, cap, tail, |s|);
      outs := AddAll(outs, cap, tail);
    }
  }

  lemma NoneIn(len: nat)
    ensures InString([], len)
  {
  }

  lemma SuffixIn(mids: seq<int>, i: nat, len: nat)
    requires i < |mids| && InString(mids, len)
    ensures 0 <= mids[i] <= len && InString(mids[i + 1..], len) && InString([mids[i]], len)
  {
    assert mids[i] in mids;
    var t := mids[i + 1..];
    forall e | e in t ensures 0 <= e <= len { assert e in mids; }
  }

  lemma CutIn(list: seq<int>, cap: nat, len: nat)
    requires InString(list, len)
    ensures InString(Cut(list, cap), len)
  {
  }

  lemma AddedIn(outs: seq<int>, cap: nat, list: seq<int>, len: nat)
    requires InString(outs, len) && InString(list, len)
    ensures InString(AddedAll(outs, cap, list), len)
  {
  }

  // ---- searching ----

  ghost predicate MatchAt(n: Node, s: seq<Byte>, f: Flags, i: int) {
    exists j :: Matches(n, s, f, i, j)
  }

  datatype Found = Nothing | Span(so: int, eo: int)

  function Largest(ends: seq<int>): int
    requires ends != []
  {
    if |ends| == 1 then ends[0]
    else
      var m := Largest(ends[..|ends| - 1]);
      if ends[|ends| - 1] > m then ends[|ends| - 1] else m
  }

  lemma {:induction false} LargestIs(ends: seq<int>)
    requires ends != []
    ensures Largest(ends) in ends && forall e :: e in ends ==> e <= Largest(ends)
  {
    if |ends| > 1 {
      var t, x := ends[..|ends| - 1], ends[|ends| - 1];
      LargestIs(t);
      assert ends == t + [x] && x in ends;
      forall e ensures e in ends <==> e in t || e == x { EitherPart(t, x, e); }
    }
  }

  lemma EitherPart(t: seq<int>, x: int, e: int)
    ensures e in t + [x] <==> e in t || e == x
  {
  }

  /** What regexec reports, from some start position on. */
  ghost function Search(root: Node, s: seq<Byte>, f: Flags, so: nat): (r: Found)
    requires so <= |s| + 1
    decreases |s| + 1 - so
  {
    if so > |s| then Nothing
    else
      var ends := Ends(root, s, f, so, CAPACITY);
      if ends != [] then Span(so, Largest(ends)) else Search(root, s, f, so + 1)
  }

  /** regexec */
  method Exec(root: Node, s: seq<Byte>, f: Flags) returns (r: Found)
    ensures r == Search(root, s, f, 0)
    ensures r.Span? ==> Matches(root, s, f, r.so, r.eo)
    ensures |s| < CAPACITY ==> LeftmostLongest(root, s, f, r)
  {
    hide Matches, Result, Ends, LeftmostLongest;
    Reported(root, s, f, 0);
    if |s| < CAPACITY { ShortIsRight(root, s, f, 0); }
    var so := 0;
    while so <= |s|
      invariant so <= |s| + 1 && Search(root, s, f, so) == Search(root, s, f, 0)
    {
      var ends := MatchAll(root, s, f, so, CAPACITY);
      if |ends| > 0 {
        var best := ends[0];
        assert Largest(ends[..1]) == best;
        for i := 1 to |ends|
          invariant best == Largest(ends[..i])
        {
          assert ends[..i + 1][..i] == ends[..i];
          if ends[i] > best { best := ends[i]; }
        }
        assert ends[..|ends|] == ends;
        return Span(so, best);
      }
      so := so + 1;
    }
    r := Nothing;
  }

  /** What is reported is a match, however long the string. */
  lemma {:induction false} Reported(root: Node, s: seq<Byte>, f: Flags, so: nat)
    requires so <= |s| + 1
    ensures var r := Search(root, s, f, so); r.Span? ==> Matches(root, s, f, r.so, r.eo)
    decreases |s| + 1 - so
  {
    hide Matches, Ends;
    if so <= |s| {
      var ends := Ends(root, s, f, so, CAPACITY);
      EndsResult(root, s, f, so, CAPACITY);
      if ends == [] { Reported(root, s, f, so + 1); } else { LargestIs(ends); }
    }
  }

  /** The leftmost match, and the longest of those that start there; nothing only if there is no match. */
  ghost predicate LeftmostLongest(root: Node, s: seq<Byte>, f: Flags, r: Found) {
    if r.Nothing? then forall i :: !MatchAt(root, s, f, i)
    else
      && Matches(root, s, f, r.so, r.eo)
      && (forall i :: i < r.so ==> !MatchAt(root, s, f, i)) && forall j :: Matches(root, s, f, r.so, j) ==> j <= r.eo
  }

  lemma {:induction false} ShortIsRight(root: Node, s: seq<Byte>, f: Flags, so: nat)
    requires |s| < CAPACITY && so <= |s| + 1 && (forall i :: 0 <= i < so ==> !MatchAt(root, s, f, i))
    ensures LeftmostLongest(root, s, f, Search(root, s, f, so))
    decreases |s| + 1 - so
  {
    hide Matches, Ends;
    OutOfString(root, s, f);
    if so <= |s| {
      EndsResult(root, s, f, so, CAPACITY);
      var ends := Ends(root, s, f, so, CAPACITY);
      if ends == [] { ShortIsRight(root, s, f, so + 1); } else { LargestIs(ends); }
    }
  }

  // ---- longer strings ----

  /** A negated empty class: any byte. */
  function AnyByte(): Node {
    Class(seq(32, _ => 0), true)
  }

  lemma AnyEnd(s: seq<Byte>, f: Flags, i: nat)
    requires i <= |s|
    ensures LeafEnd(AnyByte(), s, f, i) == if i < |s| then i + 1 else -1
    ensures Matches(AnyByte(), s, f, i, i + 1) <==> i < |s|
  {
    if i < |s| {
      var x: nat := Pow2(s[i] % 8);
      assert 0 / x == 0;
    }
  }

  lemma {:induction false} AnyRun(s: seq<Byte>, f: Flags, i: nat, j: nat)
    requires i <= j <= |s|
    ensures Steps(AnyByte(), s, f, i, j, j - i)
    decreases j - i
  {
    if i < j {
      AnyRun(s, f, i + 1, j);
      AnyEnd(s, f, i);
    }
  }

  function Upto(k: nat): (r: seq<int>)
    ensures |r| == k && forall i :: 0 <= i < k ==> r[i] == i
  {
    seq(k, i => i)
  }

  /** The search for any run of bytes reaches the positions one after the other. */
  lemma {:induction false} AnyReached(s: seq<Byte>, f: Flags, k: nat)
    requires 1 <= k <= |s| + 1
    ensures Reached(AnyByte(), s, f, Upto(k), k - 1) == Upto(|s| + 1)
    decreases |s| + 1 - k
  {
    hide LeafEnd;
    var p := k - 1;
    AnyEnd(s, f, p);
    var ends := Ends(AnyByte(), s, f, p, CAPACITY);
    if p < |s| {
      assert ends == [k];
      assert ends[1..] == [];
      assert Upto(k) + [k] == Upto(k + 1);
      assert AddedAll(Upto(k), |s| + 1, ends) == Upto(k + 1);
      AnyReached(s, f, k + 1);
    } else {
      assert ends == [];
    }
  }

  /** On every string of 256 bytes or more, any run of bytes is reported to end after 255. */
  lemma LongIsWrong(s: seq<Byte>, f: Flags)
    requires |s| >= CAPACITY
    ensures Search(Star(AnyByte()), s, f, 0) == Span(0, CAPACITY - 1) && Matches(Star(AnyByte()), s, f, 0, |s|)
    ensures !LeftmostLongest(Star(AnyByte()), s, f, Search(Star(AnyByte()), s, f, 0))
  {
    hide Reached, Matches;
    AnyRun(s, f, 0, |s|);
    StarIs(AnyByte(), s, f, 0, |s|);
    AnyReached(s, f, 1);
    assert Upto(1) == [0];
    var ends := Ends(Star(AnyByte()), s, f, 0, CAPACITY);
    assert ends == Upto(CAPACITY);
    LargestIs(ends);
    assert ends[CAPACITY - 1] in ends;
  }

  /** regexec reports the leftmost longest match of every pattern exactly on the strings of up to 255 bytes. */
  lemma ExactlyShort(s: seq<Byte>)
    ensures (forall root, f :: LeftmostLongest(root, s, f, Search(root, s, f, 0))) <==> |s| < CAPACITY
  {
    hide LeftmostLongest, Search;
    if |s| < CAPACITY {
      forall root, f ensures LeftmostLongest(root, s, f, Search(root, s, f, 0)) { ShortIsRight(root, s, f, 0); }
    } else {
      LongIsWrong(s, Flags(false, false, false));
    }
  }
}
