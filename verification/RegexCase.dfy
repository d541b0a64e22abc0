/** Characters in regular expressions: case, words and classes (libc/regex.c:36-57, 130-137, 466-470). */
module RegexCase {
  import opened Words
  import opened Regex

  // ---- case ----

  ghost predicate Letter(c: Byte) {
    65 <= c <= 90 || 97 <= c <= 122
  }

  /** The same character, or the two cases of one ASCII letter. */
  ghost predicate Alike(a: Byte, b: Byte) {
    a == b || (Letter(a) && Letter(b) && (a == b + 32 || b == a + 32))
  }

  lemma CaseIgnored(a: Byte, b: Byte)
    ensures CharEq(a, b, true) <==> Alike(a, b)
    ensures CharEq(a, b, false) <==> a == b
  {
    assert 'A' as int == 65 && 'Z' as int == 90 && 'a' as int == 97;
  }

  /** The same string but for the case of letters. */
  ghost predicate Recased(s: seq<Byte>, u: seq<Byte>) {
    |s| == |u| && forall i :: 0 <= i < |s| ==> Alike(s[i], u[i])
  }

  ghost predicate Folds(cls: seq<Byte>) {
    forall a: Byte, b: Byte :: Alike(a, b) ==> (InClass(cls, a) <==> InClass(cls, b))
  }

  /** Every class in the tree holds both cases of a letter or neither. */
  ghost predicate FoldsAll(n: Node) {
    match n
    case Class(cls, _) => Folds(cls)
    case Concat(l, r) => FoldsAll(l) && FoldsAll(r)
    case Alt(l, r) => FoldsAll(l) && FoldsAll(r)
    case Star(c) => FoldsAll(c)
    case Plus(c) => FoldsAll(c)
    case Qmark(c) => FoldsAll(c)
    case _ => true
  }

  ghost predicate NoClasses(n: Node) {
    match n
    case Class(_, _) => false
    case Concat(l, r) => NoClasses(l) && NoClasses(r)
    case Alt(l, r) => NoClasses(l) && NoClasses(r)
    case Star(c) => NoClasses(c)
    case Plus(c) => NoClasses(c)
    case Qmark(c) => NoClasses(c)
    case _ => true
  }

  lemma {:induction false} NothingToFold(n: Node)
    requires NoClasses(n)
    ensures FoldsAll(n)
  {
    match n
    case Concat(l, r) => NothingToFold(l); NothingToFold(r);
    case Alt(l, r) => NothingToFold(l); NothingToFold(r);
    case Star(c) => NothingToFold(c);
    case Plus(c) => NothingToFold(c);
    case Qmark(c) => NothingToFold(c);
    case _ =>
  }

  lemma AlikeAlways(a: Byte, b: Byte, c: Byte)
    requires Alike(a, b)
    ensures CharEq(a, c, true) <==> CharEq(b, c, true)
    ensures (a == NEWLINE <==> b == NEWLINE) && (IsWordChar(a) <==> IsWordChar(b))
  {
    CaseIgnored(a, c);
    CaseIgnored(b, c);
    assert 'A' as int == 65 && 'Z' as int == 90 && 'a' as int == 97 && 'z' as int == 122 && '0' as int == 48 && '9' as int == 57 && '_' as int == 95;
  }

  lemma LeafRecased(n: Node, s: seq<Byte>, u: seq<Byte>, f: Flags, pos: nat)
    requires f.icase && Recased(s, u) && FoldsAll(n) && pos <= |s|
    ensures LeafEnd(n, s, f, pos) == LeafEnd(n, u, f, pos)
  {
    hide IsWordChar, CharEq, InClass, Alike;
    if pos < |s| {
      AlikeAlways(s[pos], u[pos], if n.Literal? then n.ch else 0);
      if n.Class? { assert Folds(n.cls) && Alike(s[pos], u[pos]); }
    }
    if pos > 0 { AlikeAlways(s[pos - 1], u[pos - 1], 0); }
  }

  lemma {:induction false} EndsRecased(n: Node, s: seq<Byte>, u: seq<Byte>, f: Flags, pos: int, cap: nat)
    requires f.icase && Recased(s, u) && FoldsAll(n) && 0 <= pos <= |s|
    ensures Ends(n, s, f, pos, cap) == Ends(n, u, f, pos, cap)
    decreases n, 0, 0
  {
    hide Recased, LeafEnd, Added, AddedAll, Through, Reached, Cut;
    assert |s| == |u| by { RecasedLength(s, u); }
    match n
    case Alt(l, r) =>
      EndsRecased(l, s, u, f, pos, CAPACITY);
      EndsRecased(r, s, u, f, pos, CAPACITY);
    case Concat(l, r) =>
      EndsRecased(l, s, u, f, pos, CAPACITY);
      ThroughRecased(r, false, s, u, f, Ends(l, s, f, pos, CAPACITY), [], cap);
    case Star(c) => ReachedRecased(c, s, u, f, [pos], 0);
    case Plus(c) =>
      EndsRecased(c, s, u, f, pos, CAPACITY);
      ThroughRecased(c, true, s, u, f, Ends(c, s, f, pos, CAPACITY), [], cap);
    case Qmark(c) => EndsRecased(c, s, u, f, pos, CAPACITY);
    case _ => LeafRecased(n, s, u, f, pos);
  }

  lemma RecasedLength(s: seq<Byte>, u: seq<Byte>)
    requires Recased(s, u)
    ensures |s| == |u|
  {
  }

  lemma {:induction false} ThroughRecased(n: Node, star: bool, s: seq<Byte>, u: seq<Byte>, f: Flags, mids: seq<int>, outs: seq<int>, cap: nat)
    requires f.icase && Recased(s, u) && FoldsAll(n)
    requires InString(mids, |s|) && Distinct(outs) && InString(outs, |s|) && |outs| <= cap && |s| == |u|
    ensures Through(n, star, s, f, mids, outs, cap) == Through(n, star, u, f, mids, outs, cap)
    decreases n, 2, |mids|
  {
    hide Recased, Added, AddedAll, Ends, Reached, Cut, FoldsAll;
    if mids != [] {
      assert mids[0] in mids && forall x :: x in mids[1..] ==> x in mids;
      if star { ReachedRecased(n, s, u, f, [mids[0]], 0); } else { EndsRecased(n, s, u, f, mids[0], CAPACITY); }
      var tail := if star then Cut(Reached(n, s, f, [mids[0]], 0), CAPACITY) else Ends(n, s, f, mids[0], CAPACITY);
      ThroughRecased(n, star, s, u, f, mids[1..], AddedAll(outs, cap, tail), cap);
    }
  }

  lemma {:induction false} ReachedRecased(c: Node, s: seq<Byte>, u: seq<Byte>, f: Flags, queue: seq<int>, qh: nat)
    requires f.icase && Recased(s, u) && FoldsAll(c) && |s| == |u|
    requires Distinct(queue) && InString(queue, |s|) && qh <= |queue|
    ensures Reached(c, s, f, queue, qh) == Reached(c, u, f, queue, qh)
    decreases c, 1, |s| + 1 - qh
  {
    hide Recased, Added, AddedAll, Ends, Cut, FoldsAll;
    PositionsFit(queue, |s|);
    if qh < |queue| {
      assert queue[qh] in queue;
      EndsRecased(c, s, u, f, queue[qh], CAPACITY);
      ReachedRecased(c, s, u, f, AddedAll(queue, |s| + 1, Ends(c, s, f, queue[qh], CAPACITY)), qh + 1);
    }
  }

  /** Without regard to case, changing the case of letters changes nothing that is reported. */
  lemma {:induction false} SearchRecased(root: Node, s: seq<Byte>, u: seq<Byte>, f: Flags, so: nat)
    requires f.icase && Recased(s, u) && FoldsAll(root) && so <= |s| + 1
    ensures so <= |u| + 1 && Search(root, s, f, so) == Search(root, u, f, so)
    decreases |s| + 1 - so
  {
    hide Ends, FoldsAll, Alike;
    if so <= |s| {
      EndsRecased(root, s, u, f, so, CAPACITY);
      SearchRecased(root, s, u, f, so + 1);
    }
  }

  /** Classes alone keep to their case: a search for one ignores case exactly when the class holds both cases of a letter or neither. */
  lemma ClassKeepsCase(cls: seq<Byte>, negate: bool, f: Flags)
    requires f.icase
    ensures (forall s, u :: Recased(s, u) ==> Search(Class(cls, negate), s, f, 0) == Search(Class(cls, negate), u, f, 0)) <==> Folds(cls)
  {
    hide Alike, InClass, Search;
    var n := Class(cls, negate);
    if Folds(cls) {
      forall s, u | Recased(s, u) ensures Search(n, s, f, 0) == Search(n, u, f, 0) { SearchRecased(n, s, u, f, 0); }
    } else {
      var a: Byte, b: Byte :| Alike(a, b) && !(InClass(cls, a) <==> InClass(cls, b));
      assert Recased([a], [b]);
      OneCharacter(cls, negate, f, a);
      OneCharacter(cls, negate, f, b);
    }
  }

  lemma OneCharacter(cls: seq<Byte>, negate: bool, f: Flags, a: Byte)
    ensures Search(Class(cls, negate), [a], f, 0) == if InClass(cls, a) != negate then Span(0, 1) else Nothing
  {
    hide InClass;
    var n := Class(cls, negate);
    assert Search(n, [a], f, 2) == Nothing;
    assert Ends(n, [a], f, 1, CAPACITY) == [];
    assert Search(n, [a], f, 1) == Nothing;
    if InClass(cls, a) != negate {
      assert Ends(n, [a], f, 0, CAPACITY) == [1];
    } else {
      assert Ends(n, [a], f, 0, CAPACITY) == [];
    }
  }

  // ---- words ----

  /** Words are made of letters, digits and the underscore; in particular case does not matter for them. */
  lemma WordChars(c: Byte)
    ensures IsWordChar(c) <==> Letter(c) || 48 <= c <= 57 || c == 95
  {
    assert 'A' as int == 65 && 'Z' as int == 90 && 'a' as int == 97 && 'z' as int == 122 && '0' as int == 48 && '9' as int == 57 && '_' as int == 95;
  }

  // ---- classes ----

  /** class_add */
  method ClassAdd(cls: array<Byte>, c: int) returns (ok: bool)
    requires cls.Length == 32
    modifies cls
    ensures ok == (0 <= c <= 255)
    ensures forall d: Byte :: InClass(cls[..], d) <==> old(InClass(cls[..], d)) || (ok && d == c)
  {
    if c < 0 || c > 255 { return false; }
    hide Or, Pow2, InClass;
    ghost var was := cls[..];
    var i, bit := c / 8, Pow2(c % 8);
    MemberSet(was, c, 0);
    cls[i] := Or(cls[i], bit);
    assert cls[..] == was[i := Or(was[i], bit)];
    forall d: Byte
      ensures InClass(cls[..], d) <==> InClass(was, d) || d == c
    {
      MemberSet(was, c, d);
    }
    ok := true;
  }

  lemma MemberSet(cls: seq<Byte>, c: Byte, d: Byte)
    requires |cls| == 32
    ensures var x := Or(cls[c / 8], Pow2(c % 8));
            0 <= x < 256 && (InClass(cls[c / 8 := x], d) <==> InClass(cls, d) || d == c)
  {
    hide Or, Pow2;
    Pow2Values();
    OrBound(cls[c / 8], c % 8, 8);
    OrBit(cls[c / 8], c % 8, d % 8);
    assert d / 8 == c / 8 && d % 8 == c % 8 ==> d == c;
  }

  lemma {:induction false} OrBound(x: nat, k: nat, n: nat)
    requires x < Pow2(n) && k < n
    ensures Or(x, Pow2(k)) < Pow2(n)
    decreases n
  {
    hide Or, Pow2;
    PowerHalves(k);
    PowerHalves(n);
    OrOnce(x, Pow2(k));
    if k == 0 { OrNothing(x / 2); } else { OrBound(x / 2, k - 1, n - 1); }
  }

  /** Bit j after bit k has been set. */
  lemma {:induction false} OrBit(x: nat, k: nat, j: nat)
    ensures Or(x, Pow2(k)) / Pow2(j) % 2 == 1 <==> x / Pow2(j) % 2 == 1 || j == k
    decreases k + j
  {
    hide Or, Pow2;
    PowerHalves(k);
    OrOnce(x, Pow2(k));
    if j == 0 {
      PowerHalves(0);
    } else {
      HalfThen(x, j);
      HalfThen(Or(x, Pow2(k)), j);
      if k == 0 { OrNothing(x / 2); } else { OrBit(x / 2, k - 1, j - 1); }
    }
  }

  lemma PowerHalves(k: nat)
    ensures if k == 0 then Pow2(k) == 1 else Pow2(k) / 2 == Pow2(k - 1) && Pow2(k) % 2 == 0
  {
  }

  lemma OrOnce(x: nat, y: nat)
    ensures Or(x, y) == (if x % 2 == 1 || y % 2 == 1 then 1 else 0) + 2 * Or(x / 2, y / 2)
  {
  }

  lemma OrNothing(x: nat)
    ensures Or(x, 0) == x
  {
  }
}
