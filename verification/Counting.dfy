/** Byte counts of a block and the bucket boundaries they give, as counting sort uses them. */
module Counting {
  import opened Words

  ghost function Count(s: seq<Byte>, c: int): nat {
    if s == [] then 0 else Count(s[..|s| - 1], c) + (if s[|s| - 1] == c then 1 else 0)
  }

  lemma CountNext(s: seq<Byte>, i: nat)
    requires i < |s|
    ensures forall c :: Count(s[..i + 1], c) == Count(s[..i], c) + (if s[i] == c then 1 else 0)
  {
    assert s[..i + 1][..i] == s[..i];
  }

  /** How many bytes of s are smaller than c: where bucket c starts. */
  ghost function Start(s: seq<Byte>, c: nat): nat {
    if c == 0 then 0 else Start(s, c - 1) + Count(s, c - 1)
  }

  lemma {:induction false} StartMonotone(s: seq<Byte>, c: nat, d: nat)
    requires c <= d
    ensures Start(s, c) <= Start(s, d)
  {
    if c < d { StartMonotone(s, c, d - 1); }
  }

  lemma {:induction false} StartAppend(s: seq<Byte>, x: Byte, c: nat)
    ensures Start(s + [x], c) == Start(s, c) + (if x < c then 1 else 0)
  {
    if c > 0 {
      StartAppend(s, x, c - 1);
      assert (s + [x])[..|s|] == s;
    }
  }

  lemma {:induction false} StartTotal(s: seq<Byte>)
    ensures Start(s, 256) == |s|
  {
    if s == [] {
      StartEmpty(256);
    } else {
      var t := s[..|s| - 1];
      StartTotal(t);
      StartAppend(t, s[|s| - 1], 256);
      assert s == t + [s[|s| - 1]];
    }
  }

  lemma {:induction false} StartEmpty(c: nat)
    ensures Start([], c) == 0
  {
    if c > 0 { StartEmpty(c - 1); }
  }

  lemma {:induction false} CountPrefix(s: seq<Byte>, i: nat, c: int)
    requires i <= |s|
    ensures Count(s[..i], c) <= Count(s, c)
    ensures i < |s| && s[i] == c ==> Count(s[..i], c) < Count(s, c)
    decreases |s|
  {
    if i == |s| {
      assert s[..i] == s;
    } else {
      var t := s[..|s| - 1];
      CountPrefix(t, i, c);
      assert s[..i] == t[..i];
    }
  }

  /** The bucket a sorted position belongs to. */
  lemma {:induction false} BucketOf(s: seq<Byte>, p: nat, c: nat) returns (d: nat)
    requires p < Start(s, c)
    ensures d < c && Start(s, d) <= p < Start(s, d) + Count(s, d)
    decreases c
  {
    if p < Start(s, c - 1) { d := BucketOf(s, p, c - 1); } else { d := c - 1; }
  }

  ghost predicate InBucket(b: seq<Byte>, c: nat, p: int) {
    Start(b, c) <= p < Start(b, c + 1)
  }

  lemma BucketsDisjoint(b: seq<Byte>, c: nat, d: nat, p: int, q: int)
    requires InBucket(b, c, p) && InBucket(b, d, q) && c < d
    ensures p < q
  {
    StartMonotone(b, c + 1, d);
  }

  ghost function Occurrences(s: seq<Byte>, c: int): set<int> {
    set x | 0 <= x < |s| && s[x] == c
  }

  lemma {:induction false} CountOccurrences(s: seq<Byte>, c: int)
    ensures Count(s, c) == |Occurrences(s, c)|
  {
    if s != [] {
      var t, x := s[..|s| - 1], |s| - 1;
      CountOccurrences(t, c);
      assert Occurrences(s, c) == Occurrences(t, c) + (if s[x] == c then {x} else {});
    }
  }

  lemma {:induction false} CountLater(s: seq<Byte>, i: nat, c: int)
    requires i <= |s| && Count(s[..i], c) < Count(s, c)
    ensures exists p :: i <= p < |s| && s[p] == c
  {
    assert s[..|s|] == s;
    if i < |s| && s[|s| - 1] != c {
      var t := s[..|s| - 1];
      assert s[..i] == t[..i];
      CountLater(t, i, c);
      var p :| i <= p < |t| && t[p] == c;
      assert s[p] == c;
    }
  }

  // ---- stable sorting ----

  /** Where a stable sort of `l` puts entry i. */
  ghost function Slot(l: seq<Byte>, i: nat): nat
    requires i < |l|
  {
    Start(l, l[i]) + Count(l[..i], l[i])
  }

  lemma SlotInBucket(l: seq<Byte>, i: nat)
    requires i < |l|
    ensures InBucket(l, l[i], Slot(l, i)) && Slot(l, i) < |l|
  {
    var c: int := l[i];
    CountPrefix(l, i, c);
    StartTotal(l);
    StartMonotone(l, c + 1, 256);
  }

  lemma {:induction false} CountGrows(l: seq<Byte>, i: nat, j: nat, c: int)
    requires i <= j <= |l|
    ensures Count(l[..i], c) <= Count(l[..j], c)
    ensures i < j && l[i] == c ==> Count(l[..i], c) < Count(l[..j], c)
  {
    assert l[..j][..i] == l[..i];
    CountPrefix(l[..j], i, c);
  }

  /** Slots follow byte order, and position order among equal bytes. */
  lemma SlotOrder(l: seq<Byte>, i: nat, j: nat)
    requires i < |l| && j < |l|
    ensures Slot(l, i) < Slot(l, j) <==> l[i] < l[j] || (l[i] == l[j] && i < j)
  {
    SlotInBucket(l, i);
    SlotInBucket(l, j);
    if l[i] < l[j] {
      BucketsDisjoint(l, l[i], l[j], Slot(l, i), Slot(l, j));
    } else if l[j] < l[i] {
      BucketsDisjoint(l, l[j], l[i], Slot(l, j), Slot(l, i));
    } else if i < j {
      CountGrows(l, i, j, l[i]);
    } else {
      CountGrows(l, j, i, l[i]);
    }
  }
}
