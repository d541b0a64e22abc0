/** Bytes, powers of two, and facts about permutations of index ranges used by every stage. */
module Words {

  type Byte = x: int | 0 <= x < 256

  function Pow2(n: nat): (r: nat)
    ensures r >= 1
  {
    if n == 0 then 1 else 2 * Pow2(n - 1)
  }

  lemma MulAssoc(a: int, b: int, c: int)
    ensures a * (b * c) == (a * b) * c
  {
  }

  lemma Doubled(a: int, b: int)
    ensures a * (2 * b) == 2 * (a * b)
  {
  }

  lemma {:induction false} Pow2Add(m: nat, n: nat)
    ensures Pow2(m + n) == Pow2(m) * Pow2(n)
  {
    if m > 0 {
      Pow2Add(m - 1, n);
      MulAssoc(2, Pow2(m - 1), Pow2(n));
    }
  }

  lemma {:induction false} Pow2Monotone(m: nat, n: nat)
    requires m <= n
    ensures Pow2(m) <= Pow2(n)
  {
    if m < n { Pow2Monotone(m, n - 1); }
  }

  lemma Pow2Values()
    ensures Pow2(8) == 256 && Pow2(16) == 65536 && Pow2(20) == 0x10_0000 && Pow2(24) == 0x100_0000 && Pow2(32) == 0x1_0000_0000
  {
    assert Pow2(4) == 16;
    Pow2Add(4, 4);
    Pow2Add(8, 8);
    Pow2Add(16, 4);
    Pow2Add(16, 8);
    Pow2Add(16, 16);
  }

  lemma Scale(a: int, b: int, c: nat)
    requires a <= b
    ensures a * c <= b * c
  {
  }

  /** Bitwise or of two non-negative integers. */
  function Or(x: nat, y: nat): nat
    decreases x + y
  {
    if x == 0 then y
    else if y == 0 then x
    else (if x % 2 == 1 || y % 2 == 1 then 1 else 0) + 2 * Or(x / 2, y / 2)
  }

  lemma OrStep(x: nat, y: nat, s: nat)
    requires Or(x, y / 2) == s
    ensures Or(2 * x, y) == 2 * s + y % 2
  {
    var z := 2 * x;
    assert z / 2 == x && z % 2 == 0;
    if z != 0 && y != 0 { assert Or(z, y) == y % 2 + 2 * Or(x, y / 2); }
  }

  lemma {:induction false} OrCommutes(x: nat, y: nat)
    ensures Or(x, y) == Or(y, x)
    decreases x + y
  {
    if x != 0 && y != 0 { OrCommutes(x / 2, y / 2); }
  }

  predicate LowBitsClear(x: nat, k: nat) {
    k == 0 || (x % 2 == 0 && LowBitsClear(x / 2, k - 1))
  }

  lemma {:induction false} MultipleClear(q: nat, k: nat)
    ensures LowBitsClear(q * Pow2(k), k)
  {
    if k > 0 {
      MultipleClear(q, k - 1);
      Doubled(q, Pow2(k - 1));
    }
  }

  lemma {:induction false} OrDisjoint(x: nat, y: nat, k: nat)
    requires LowBitsClear(x, k) && y < Pow2(k)
    ensures Or(x, y) == x + y
    decreases k
  {
    if k > 0 {
      OrDisjoint(x / 2, y / 2, k - 1);
      OrStep(x / 2, y, x / 2 + y / 2);
    }
  }

  /** Or-ing a value into k clear low bits adds it. */
  lemma OrIntoClear(q: nat, y: nat, k: nat)
    requires y < Pow2(k)
    ensures Or(q * Pow2(k), y) == q * Pow2(k) + y
    ensures Or(y, q * Pow2(k)) == q * Pow2(k) + y
  {
    MultipleClear(q, k);
    OrDisjoint(q * Pow2(k), y, k);
    OrCommutes(q * Pow2(k), y);
  }

  lemma DivMod(x: nat, p: nat)
    requires p > 0
    ensures x == x / p * p + x % p && x % p < p
  {
  }

  lemma Quotient(x: int, q: int, m: int, r: int)
    requires x == q * m + r && 0 <= r < m
    ensures x / m == q && x % m == r
  {
    var d := x / m - q;
    assert x / m * m == q * m + d * m by { assert (q + d) * m == q * m + d * m; }
    if d >= 1 { Scale(1, d, m); } else if d <= -1 { Scale(d, -1, m); }
  }

  lemma SmallQuotient(x: nat, p: nat, m: nat)
    requires p > 0 && x < p * m
    ensures x == x / p * p + x % p && x % p < p && x / p < m
  {
    DivMod(x, p);
    if x / p >= m { Scale(m, x / p, p); }
  }

  lemma Spread(a: int, b: int, c: int)
    ensures (a + b) * c == a * c + b * c
  {
  }

  lemma HalfThen(x: nat, k: nat)
    requires k > 0
    ensures x / Pow2(k) == x / 2 / Pow2(k - 1)
  {
    var p := Pow2(k - 1);
    DivMod(x / 2, p);
    var q, r := x / 2 / p, x / 2 % p;
    assert q * (2 * p) == 2 * (q * p) by { Doubled(q, p); }
    Quotient(x, q, 2 * p, 2 * r + x % 2);
  }

  // ---- sequences ----

  function Repeat(x: int, n: nat): (s: seq<int>)
    ensures |s| == n && forall i :: 0 <= i < n ==> s[i] == x
  {
    seq(n, _ => x)
  }

  function Copies(c: Byte, n: nat): (s: seq<Byte>)
    ensures |s| == n && forall i :: 0 <= i < n ==> s[i] == c
  {
    seq(n, _ => c)
  }

  /** All parts, one after the other. */
  ghost function Joined<T>(parts: seq<seq<T>>): seq<T> {
    if parts == [] then [] else parts[0] + Joined(parts[1..])
  }

  lemma {:induction false} JoinedLast<T>(parts: seq<seq<T>>, last: seq<T>)
    ensures Joined(parts + [last]) == Joined(parts) + last
  {
    if parts == [] {
      assert [last][1..] == [] && parts + [last] == [last];
      assert last + Joined([]) == last && Joined([]) + last == last;
    } else {
      JoinedLast(parts[1..], last);
      assert (parts + [last])[1..] == parts[1..] + [last];
      Regroup(parts[0], Joined(parts[1..]), last);
    }
  }

  /** Where x is in the list for the first time. */
  function IndexOf<T(==)>(list: seq<T>, x: T): (j: nat)
    requires x in list
    ensures j < |list| && list[j] == x && x !in list[..j]
  {
    if list[0] == x then 0
    else
      var j := 1 + IndexOf(list[1..], x);
      assert list[..j] == [list[0]] + list[1..][..j - 1];
      j
  }

  lemma NothingAfter<T>(s: seq<T>)
    ensures s + [] == s
  {
  }

  lemma Regroup<T>(a: seq<T>, b: seq<T>, c: seq<T>)
    ensures a + b + c == a + (b + c)
  {
  }

  predicate Distinct<T(==)>(s: seq<T>) {
    forall i, j :: 0 <= i < j < |s| ==> s[i] != s[j]
  }

  /** `p` lists each of 0, 1, ..., n-1 exactly once. */
  predicate Permutation(p: seq<int>, n: nat) {
    && |p| == n
    && (forall i :: 0 <= i < n ==> 0 <= p[i] < n)
    && Distinct(p)
  }

  ghost function Elements(p: seq<int>): set<int> {
    set x | x in p
  }

  lemma {:induction false} DistinctCount(p: seq<int>)
    requires Distinct(p)
    ensures |Elements(p)| == |p|
  {
    if p != [] {
      var q := p[..|p| - 1];
      DistinctCount(q);
      assert Elements(p) == Elements(q) + {p[|p| - 1]};
      assert p[|p| - 1] !in q;
    }
  }

  lemma {:induction false} ElementsAtMost(p: seq<int>)
    ensures |Elements(p)| <= |p|
  {
    if p != [] {
      var q := p[..|p| - 1];
      ElementsAtMost(q);
      assert Elements(p) == Elements(q) + {p[|p| - 1]};
    }
  }

  ghost function Below(n: nat): (s: set<int>)
    ensures forall x :: x in s <==> 0 <= x < n
  {
    if n == 0 then {} else Below(n - 1) + {n - 1}
  }

  lemma {:induction false} BelowCount(n: nat)
    ensures |Below(n)| == n
  {
    if n > 0 {
      BelowCount(n - 1);
    }
  }

  lemma SubsetCount(a: set<int>, b: set<int>)
    requires a <= b
    ensures |a| <= |b|
    ensures |a| == |b| ==> a == b
  {
    assert b == a + (b - a);
    assert |b| == |a| + |b - a|;
  }

  /** A permutation of 0..n-1 hits every index. */
  lemma PermutationOnto(p: seq<int>, n: nat, x: int) returns (i: nat)
    requires Permutation(p, n) && 0 <= x < n
    ensures i < n && p[i] == x
  {
    DistinctCount(p);
    BelowCount(n);
    SubsetCount(Elements(p), Below(n));
    assert x in Elements(p);
    i :| 0 <= i < n && p[i] == x;
  }

  lemma {:induction false} CountOnce(p: seq<int>, v: int)
    requires Distinct(p)
    ensures multiset(p)[v] <= 1
  {
    if p != [] {
      var q := p[..|p| - 1];
      CountOnce(q, v);
      assert p == q + [p[|p| - 1]];
      if p[|p| - 1] == v { assert v !in q; }
    }
  }

  /** Rearranging a permutation leaves a permutation. */
  lemma DistinctRearranged(p: seq<int>, q: seq<int>)
    requires Distinct(p) && multiset(p) == multiset(q)
    ensures Distinct(q) && Elements(q) == Elements(p)
  {
    forall i, j | 0 <= i < j < |q|
      ensures q[i] != q[j]
    {
      CountOnce(p, q[i]);
      assert q == q[..j] + q[j..];
      assert q[i] in q[..j] && q[j] in q[j..];
    }
    forall x
      ensures x in p <==> x in q
    {
      assert x in multiset(p) <==> x in multiset(q);
    }
  }

  lemma PermutationRearranged(p: seq<int>, q: seq<int>, n: nat)
    requires Permutation(p, n) && multiset(p) == multiset(q)
    ensures Permutation(q, n)
  {
    assert |multiset(q)| == |q|;
    forall i | 0 <= i < n
      ensures 0 <= q[i] < n
    {
      assert q[i] in multiset(q);
      assert q[i] in p;
    }
    DistinctRearranged(p, q);
  }

  lemma Pick(S: set<int>) returns (p: int)
    requires S != {}
    ensures p in S
  {
    if forall x :: x !in S { assert false; }
    p :| p in S;
  }
  /** An injective index map from S onto T gives them the same size. */
  lemma {:induction false} ImageCount(f: seq<int>, S: set<int>, T: set<int>)
    requires forall p :: p in S ==> 0 <= p < |f| && f[p] in T
    requires forall p, q :: p in S && q in S && p != q ==> f[p] != f[q]
    requires forall t :: t in T ==> exists p :: p in S && f[p] == t
    ensures |S| == |T|
    decreases S
  {
    if S == {} {
      if T != {} {
        var t := Pick(T);
        assert false;
      }
    } else {
      var p := Pick(S);
      var S', T' := S - {p}, T - {f[p]};
      forall t | t in T'
        ensures exists q :: q in S' && f[q] == t
      {
        var q :| q in S && f[q] == t;
        assert q in S';
      }
      ImageCount(f, S', T');
    }
  }

  /** Moving a hole from `a` to `b` keeps the entries, once the hole is filled. */
  lemma HoleMoved(s: seq<int>, a: nat, b: nat, v: int)
    requires a < |s| && b < |s| && a != b
    ensures multiset(s[a := s[b]][b := v]) == multiset(s[a := v])
  {
    var t := s[a := v];
    assert s[a := s[b]][b := v] == t[a := t[b]][b := t[a]];
  }

  lemma Cancel(p: multiset<int>, m: multiset<int>, m': multiset<int>, s: multiset<int>)
    requires p + m + s == p + m' + s
    ensures m == m'
  {
    forall x
      ensures m[x] == m'[x]
    {
      assert (p + m + s)[x] == (p + m' + s)[x];
    }
  }
}
