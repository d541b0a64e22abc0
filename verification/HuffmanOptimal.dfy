/** Why merging the two lightest trees gives a code of least total length (libc/huffman.c:93-112). */
module HuffmanOptimal {
  import opened Words
  import opened HuffmanTree

  // ---- costs and room ----

  /** Bits needed if symbol i occurs w[i] times and has m[i] bits. */
  ghost function Cost(w: seq<int>, m: seq<int>): int
    requires |w| == |m|
  {
    if w == [] then 0 else Cost(w[..|w| - 1], m[..|m| - 1]) + w[|w| - 1] * m[|m| - 1]
  }

  ghost predicate Short(m: seq<int>, k: nat) {
    forall i :: 0 <= i < |m| ==> 0 <= m[i] <= k
  }

  /** The part of the 2^k words of k bits that begin with a code word. */
  ghost function Room(m: seq<int>, k: nat): int
    requires Short(m, k)
  {
    if m == [] then 0 else Room(m[..|m| - 1], k) + Pow2(k - m[|m| - 1])
  }

  /** Lengths that some prefix code has: Kraft's inequality. */
  ghost predicate Fits(m: seq<int>, k: nat) {
    Short(m, k) && Room(m, k) <= Pow2(k)
  }

  lemma {:induction false} CostSet(w: seq<int>, m: seq<int>, i: nat, v: int)
    requires |w| == |m| && i < |w|
    ensures Cost(w, m[i := v]) == Cost(w, m) + w[i] * v - w[i] * m[i]
    decreases |w|
  {
    var n := |w| - 1;
    if i < n {
      assert m[i := v][..n] == m[..n][i := v];
      CostSet(w[..n], m[..n], i, v);
    } else {
      assert m[i := v][..n] == m[..n];
    }
  }

  lemma {:induction false} RoomSet(m: seq<int>, k: nat, i: nat, v: int)
    requires Short(m, k) && i < |m| && 0 <= v <= k
    ensures Short(m[i := v], k) && Room(m[i := v], k) == Room(m, k) - Pow2(k - m[i]) + Pow2(k - v)
    decreases |m|
  {
    hide Pow2;
    var n := |m| - 1;
    if i < n {
      assert m[i := v][..n] == m[..n][i := v];
      RoomSet(m[..n], k, i, v);
    } else {
      assert m[i := v][..n] == m[..n];
    }
  }

  ghost function Drop(s: seq<int>, i: nat): (r: seq<int>)
    requires i < |s|
    ensures |r| == |s| - 1 && forall j :: 0 <= j < |r| ==> r[j] == if j < i then s[j] else s[j + 1]
  {
    s[..i] + s[i + 1..]
  }

  lemma {:induction false} CostDrop(w: seq<int>, m: seq<int>, i: nat)
    requires |w| == |m| && i < |w|
    ensures Cost(w, m) == Cost(Drop(w, i), Drop(m, i)) + w[i] * m[i]
    decreases |w|
  {
    var n := |w| - 1;
    if i < n {
      assert Drop(w, i)[..n - 1] == Drop(w[..n], i) && Drop(m, i)[..n - 1] == Drop(m[..n], i);
      CostDrop(w[..n], m[..n], i);
    } else {
      assert Drop(w, i) == w[..n] && Drop(m, i) == m[..n];
    }
  }

  lemma {:induction false} RoomDrop(m: seq<int>, k: nat, i: nat)
    requires Short(m, k) && i < |m|
    ensures Short(Drop(m, i), k) && Room(m, k) == Room(Drop(m, i), k) + Pow2(k - m[i])
    decreases |m|
  {
    hide Pow2;
    var n := |m| - 1;
    if i < n {
      assert Drop(m, i)[..n - 1] == Drop(m[..n], i);
      RoomDrop(m[..n], k, i);
    } else {
      assert Drop(m, i) == m[..n];
    }
  }

  lemma {:induction false} RoomPositive(m: seq<int>, k: nat)
    requires Short(m, k)
    ensures Room(m, k) >= 0
  {
    if m != [] { RoomPositive(m[..|m| - 1], k); }
  }

  /** All words of up to d bits take up multiples of 2^(k - d). */
  lemma {:induction false} RoomMultiple(m: seq<int>, k: nat, d: nat) returns (q: int)
    requires Short(m, k) && d <= k && forall i :: 0 <= i < |m| ==> m[i] <= d
    ensures Room(m, k) == q * Pow2(k - d)
  {
    hide Pow2;
    if m == [] {
      q := 0;
    } else {
      var x := m[|m| - 1];
      var p := RoomMultiple(m[..|m| - 1], k, d);
      Pow2Add(d - x, k - d);
      q := p + Pow2(d - x);
      Spread(p, Pow2(d - x), Pow2(k - d));
    }
  }

  // ---- the exchange ----

  /** w[i] and w[j] are the two smallest. */
  ghost predicate Smallest(w: seq<int>, i: nat, j: nat) {
    && i < |w| && j < |w| && i != j && 0 <= w[i] <= w[j]
    && forall x :: 0 <= x < |w| && x != i ==> w[j] <= w[x]
  }

  ghost function Swap(m: seq<int>, i: nat, x: nat): seq<int>
    requires i < |m| && x < |m|
  {
    m[i := m[x]][x := m[i]]
  }

  /** Giving the longer word to the rarer symbol costs no more. */
  lemma SwapCheaper(w: seq<int>, m: seq<int>, i: nat, x: nat, k: nat)
    requires |w| == |m| && i < |m| && x < |m| && w[i] <= w[x] && m[i] <= m[x] && Fits(m, k)
    ensures Fits(Swap(m, i, x), k) && Cost(w, Swap(m, i, x)) <= Cost(w, m)
  {
    hide Pow2, Cost, Room;
    var a, b := m[i], m[x];
    CostSet(w, m, i, b);
    CostSet(w, m[i := b], x, a);
    RoomSet(m, k, i, b);
    RoomSet(m[i := b], k, x, a);
    if i == x {
      assert Swap(m, i, x) == m;
    } else {
      Exchange(w[i], w[x], a, b);
    }
  }

  lemma Exchange(v: int, u: int, a: int, b: int)
    requires v <= u && a <= b
    ensures v * b - v * a <= u * b - u * a
  {
    assert v * b - v * a == v * (b - a) && u * b - u * a == u * (b - a);
    Scale(v, u, b - a);
  }

  /** A longest word, leaving out position `but`. */
  lemma {:induction false} Longest(m: seq<int>, but: int) returns (x: nat)
    requires |m| >= 2 || (|m| == 1 && but != 0)
    ensures x < |m| && x != but && forall y :: 0 <= y < |m| && y != but ==> m[y] <= m[x]
  {
    var n := |m| - 1;
    if n == 0 {
      x := 0;
    } else if n == 1 && but == 0 {
      x := 1;
    } else if but == n {
      x := Longest(m[..n], -1);
    } else {
      x := Longest(m[..n], but);
      if m[n] > m[x] { x := n; }
    }
  }

  /** The word of i, longer than all others, can be cut down to the longest of them. */
  lemma CutDown(w: seq<int>, m: seq<int>, i: nat, d: nat, k: nat)
    requires |w| == |m| && i < |m| && Fits(m, k) && d <= m[i] && w[i] >= 0
    requires forall x :: 0 <= x < |m| && x != i ==> m[x] <= d
    ensures Fits(m[i := d], k) && Cost(w, m[i := d]) <= Cost(w, m)
  {
    hide Pow2, Cost, Room;
    CostSet(w, m, i, d);
    Scale(d, m[i], w[i]);
    RoomSet(m, k, i, d);
    RoomDrop(m, k, i);
    var others := Drop(m, i);
    var q := RoomMultiple(others, k, d);
    Pow2Add(d, k - d);
    BelowMultiple(q, Pow2(d), Pow2(k - d), Pow2(k - m[i]));
  }

  /** Room for a part of u is room for all of u, where everything else is a multiple of u. */
  lemma BelowMultiple(q: int, p: int, u: int, part: int)
    requires u > 0 && part > 0 && q * u + part <= p * u
    ensures q * u + u <= p * u
  {
    if q >= p { Scale(p, q, u); assert false; }
    Scale(q + 1, p, u);
    Spread(q, 1, u);
  }

  /** Some code that costs no more has words of the same length for the two rarest symbols, and none longer. */
  lemma Levelled(w: seq<int>, m: seq<int>, i: nat, j: nat, k: nat) returns (m': seq<int>)
    requires |w| == |m| && Smallest(w, i, j) && Fits(m, k)
    ensures |m'| == |w| && Fits(m', k) && Cost(w, m') <= Cost(w, m) && 1 <= m'[i] == m'[j]
    ensures forall x :: 0 <= x < |m'| ==> m'[x] <= m'[i]
  {
    hide Pow2, Cost, Room;
    var x := Longest(m, -1);
    SwapCheaper(w, m, i, x, k);
    var m1 := Swap(m, i, x);
    var y := Longest(m1, i);
    SwapCheaper(w, m1, j, y, k);
    var m2 := Swap(m1, j, y);
    CutDown(w, m2, i, m2[j], k);
    m' := m2[i := m2[j]];
    NotZero(m', i, j, k);
  }

  lemma NotZero(m: seq<int>, i: nat, j: nat, k: nat)
    requires i < |m| && j < |m| && i != j && Fits(m, k) && m[i] == m[j]
    ensures m[i] >= 1
  {
    hide Pow2, Room;
    RoomDrop(m, k, i);
    var rest, j' := Drop(m, i), if j < i then j else j - 1;
    assert rest[j'] == m[j];
    RoomDrop(rest, k, j');
    RoomPositive(Drop(rest, j'), k);
  }

  // ---- merging ----

  /** Both entries replaced by one for the two together. */
  ghost function Coupled(s: seq<int>, i: nat, j: nat, x: int): (r: seq<int>)
    requires i < |s| && j < |s| && i != j
    ensures |r| == |s| - 1
  {
    Drop(Drop(s, i), if j < i then j else j - 1) + [x]
  }

  lemma LastCost(w: seq<int>, m: seq<int>, u: int, d: int)
    requires |w| == |m|
    ensures Cost(w + [u], m + [d]) == Cost(w, m) + u * d
  {
    assert (w + [u])[..|w|] == w && (m + [d])[..|m|] == m;
  }

  lemma LastRoom(m: seq<int>, d: int, k: nat)
    requires Short(m, k) && 0 <= d <= k
    ensures Short(m + [d], k) && Room(m + [d], k) == Room(m, k) + Pow2(k - d)
  {
    hide Pow2;
    assert (m + [d])[..|m|] == m;
  }

  /** Two words of one length in place of a shorter one for both: one bit more for each occurrence. */
  lemma CoupledCost(w: seq<int>, m: seq<int>, i: nat, j: nat, k: nat)
    requires |w| == |m| && i < |m| && j < |m| && i != j && Fits(m, k) && 1 <= m[i] == m[j]
    ensures var m' := Coupled(m, i, j, m[i] - 1);
            Fits(m', k) && Cost(w, m) == Cost(Coupled(w, i, j, w[i] + w[j]), m') + w[i] + w[j]
  {
    hide Pow2, Cost, Room;
    var j', d := if j < i then j else j - 1, m[i];
    var w1, m1 := Drop(w, i), Drop(m, i);
    assert w1[j'] == w[j] && m1[j'] == m[j];
    CostDrop(w, m, i);
    CostDrop(w1, m1, j');
    RoomDrop(m, k, i);
    RoomDrop(m1, k, j');
    LastCost(Drop(w1, j'), Drop(m1, j'), w[i] + w[j], d - 1);
    LastRoom(Drop(m1, j'), d - 1, k);
    Twice(k, d);
    OneBitMore(w[i], w[j], d);
  }

  lemma Twice(k: nat, d: nat)
    requires 1 <= d <= k
    ensures Pow2(k - (d - 1)) == 2 * Pow2(k - d)
  {
  }

  lemma OneBitMore(a: int, b: int, d: int)
    ensures a * d + b * d == (a + b) * (d - 1) + a + b
  {
    Spread(a, b, d - 1);
    assert a * d == a * (d - 1) + a && b * d == b * (d - 1) + b;
  }

  // ---- least cost ----

  /** No prefix code costs less than c. */
  ghost predicate AtLeast(w: seq<int>, c: int) {
    forall m: seq<int>, k: nat :: |m| == |w| && Fits(m, k) ==> Cost(w, m) >= c
  }

  /** Whatever codes for the merged weights must cost, codes for the weights themselves cost that and both weights more. */
  lemma MergeBound(w: seq<int>, i: nat, j: nat, c: int)
    requires Smallest(w, i, j) && AtLeast(Coupled(w, i, j, w[i] + w[j]), c)
    ensures AtLeast(w, c + w[i] + w[j])
  {
    hide Fits, Cost;
    forall m: seq<int>, k: nat | |m| == |w| && Fits(m, k)
      ensures Cost(w, m) >= c + w[i] + w[j]
    {
      var m' := Levelled(w, m, i, j, k);
      CoupledCost(w, m', i, j, k);
    }
  }

  /** Once `paid` bits are accounted for, the least cost for `leaf` is what is left to code the weights w. */
  ghost predicate Reduces(leaf: seq<int>, w: seq<int>, paid: int) {
    forall c: int :: AtLeast(w, c) ==> AtLeast(leaf, c + paid)
  }

  lemma ReducesNone(leaf: seq<int>)
    ensures Reduces(leaf, leaf, 0)
  {
    hide AtLeast;
  }

  lemma ReducesMore(leaf: seq<int>, w: seq<int>, paid: int, i: nat, j: nat)
    requires Reduces(leaf, w, paid) && Smallest(w, i, j)
    ensures Reduces(leaf, Coupled(w, i, j, w[i] + w[j]), paid + w[i] + w[j])
  {
    hide AtLeast;
    var w', more := Coupled(w, i, j, w[i] + w[j]), w[i] + w[j];
    forall c: int | AtLeast(w', c)
      ensures AtLeast(leaf, c + (paid + more))
    {
      MergeBound(w, i, j, c);
      assert AtLeast(leaf, (c + more) + paid);
    }
    assert paid + more == paid + w[i] + w[j];
  }

  lemma ReducedToOne(leaf: seq<int>, x: int, paid: int)
    requires Reduces(leaf, [x], paid) && x >= 0
    ensures AtLeast(leaf, paid)
  {
    forall m: seq<int>, k: nat | |m| == 1 && Fits(m, k) ensures Cost([x], m) >= 0 {
      assert Cost([x], m) == x * m[0] by { assert [x][..0] == [] && m[..0] == []; }
      Scale(0, x, m[0]);
    }
    assert AtLeast([x], 0);
  }

  /** Lengths that no prefix code beats. */
  ghost predicate Optimal(w: seq<int>, m: seq<int>) {
    |m| == |w| && AtLeast(w, Cost(w, m))
  }

  // ---- the forest ----

  ghost function Weights(roots: seq<int>, weight: seq<int>): (w: seq<int>)
    requires forall k :: 0 <= k < |roots| ==> 0 <= roots[k] < |weight|
    ensures |w| == |roots| && forall k :: 0 <= k < |roots| ==> w[k] == WeightOf(weight[roots[k]])
  {
    seq(|roots|, k requires 0 <= k < |roots| => WeightOf(weight[roots[k]]))
  }

  ghost predicate Listing(roots: seq<int>, active: set<int>, weight: seq<int>) {
    && Distinct(roots) && (forall r :: r in active <==> r in roots)
    && forall k :: 0 <= k < |roots| ==> 0 <= roots[k] < |weight|
  }

  /** The roots are left to code, and the bits below them are paid for. */
  ghost predicate Greedy(weight: seq<int>, active: set<int>, leaf: seq<int>, depth: seq<int>) {
    |leaf| == |depth| && exists roots: seq<int> :: Listing(roots, active, weight) && Reduces(leaf, Weights(roots, weight), Cost(leaf, depth))
  }

  /** Every leaf below a or b goes one down. */
  lemma {:induction false} CostMerged(leaf: seq<int>, root: seq<int>, depth: seq<int>, a: int, b: int, k: nat)
    requires |leaf| == |root| == |depth| && k <= |leaf| && a != b
    ensures Cost(leaf[..k], MergedDepth(root, depth, a, b)[..k])
            == Cost(leaf[..k], depth[..k]) + Sum(leaf, root, a, k) + Sum(leaf, root, b, k)
  {
    if k > 0 {
      CostMerged(leaf, root, depth, a, b, k - 1);
      var d := MergedDepth(root, depth, a, b);
      assert leaf[..k][..k - 1] == leaf[..k - 1] && depth[..k][..k - 1] == depth[..k - 1] && d[..k][..k - 1] == d[..k - 1];
      assert leaf[k - 1] * (depth[k - 1] + 1) == leaf[k - 1] * depth[k - 1] + leaf[k - 1];
    }
  }

  lemma ListingMerged(roots: seq<int>, active: set<int>, weight: seq<int>, i: nat, j: nat, z: int, v: int)
    requires Listing(roots, active, weight) && i < |roots| && j < |roots| && i != j && z !in active && 0 <= z < |weight|
    ensures Listing(Coupled(roots, i, j, z), MergedRoots(active, roots[i], roots[j], z), weight[z := v])
    ensures Weights(Coupled(roots, i, j, z), weight[z := v]) == Coupled(Weights(roots, weight), i, j, WeightOf(v))
  {
    hide Drop, Weights, Distinct;
    var j' := if j < i then j else j - 1;
    var r1 := Drop(roots, i);
    var r2 := Drop(r1, j');
    DropListed(roots, i);
    DropListed(r1, j');
    DropAt(roots, i, j);
    forall k | 0 <= k < |r2| ensures r2[k] != z && r2[k] in active { assert r2[k] in r2; }
    DropBoth(active, roots, r1, r2, roots[i], roots[j], z);
    LastDistinct(r2, z);
    var w := Weights(roots, weight);
    WeightsDrop(roots, weight, i);
    WeightsDrop(r1, weight, j');
    WeightsLast(r2, weight, z, v);
  }

  lemma DropAt(s: seq<int>, i: nat, j: nat)
    requires i < |s| && j < |s| && i != j
    ensures Drop(s, i)[if j < i then j else j - 1] == s[j]
  {
  }

  lemma DropBoth(active: set<int>, roots: seq<int>, r1: seq<int>, r2: seq<int>, a: int, b: int, z: int)
    requires (forall x :: x in active <==> x in roots) && (forall x :: x in r1 <==> x in roots && x != a) && forall x :: x in r2 <==> x in r1 && x != b
    ensures forall x :: x in MergedRoots(active, a, b, z) <==> x in r2 + [z]
  {
    forall x ensures x in MergedRoots(active, a, b, z) <==> x in r2 + [z] {
      assert x in r2 + [z] <==> x in r2 || x == z;
    }
  }

  lemma LastDistinct(s: seq<int>, z: int)
    requires Distinct(s) && forall k :: 0 <= k < |s| ==> s[k] != z
    ensures Distinct(s + [z])
  {
  }

  lemma WeightsDrop(roots: seq<int>, weight: seq<int>, i: nat)
    requires i < |roots| && forall k :: 0 <= k < |roots| ==> 0 <= roots[k] < |weight|
    ensures (forall k :: 0 <= k < |Drop(roots, i)| ==> 0 <= Drop(roots, i)[k] < |weight|) && Weights(Drop(roots, i), weight) == Drop(Weights(roots, weight), i)
  {
    hide WeightOf;
  }

  lemma WeightsLast(roots: seq<int>, weight: seq<int>, z: int, v: int)
    requires 0 <= z < |weight| && forall k :: 0 <= k < |roots| ==> 0 <= roots[k] < |weight| && roots[k] != z
    ensures Weights(roots + [z], weight[z := v]) == Weights(roots, weight) + [WeightOf(v)]
  {
    hide WeightOf;
  }

  lemma DropListed(s: seq<int>, i: nat)
    requires Distinct(s) && i < |s|
    ensures Distinct(Drop(s, i)) && forall x :: x in Drop(s, i) <==> x in s && x != s[i]
  {
    var t := Drop(s, i);
    forall x | x in s && x != s[i] ensures x in t {
      var k :| 0 <= k < |s| && s[k] == x;
      assert t[if k < i then k else k - 1] == x;
    }
    forall x | x in t ensures x in s && x != s[i] {
      var k :| 0 <= k < |t| && t[k] == x;
      assert s[if k < i then k else k + 1] == x;
    }
  }

  lemma MergeGreedy(n: nat, weight: seq<int>, active: set<int>, leaf: seq<int>, root: seq<int>, depth: seq<int>, a: int, b: int, z: int)
    requires Greedy(weight, active, leaf, depth) && Lightest(weight, active, a, b) && Weighed(n, weight, active, leaf, root, depth)
    requires z !in active && 0 < z < |weight| && DepthOf(weight[a]) < 255 && DepthOf(weight[b]) < 255
    ensures Greedy(weight[z := AddWeights(weight[a], weight[b])], MergedRoots(active, a, b, z), leaf, MergedDepth(root, depth, a, b))
  {
    hide AddWeights, Reduces, Coupled, Cost, Sum, MergedDepth, DepthOf, WeightOf;
    var roots :| Listing(roots, active, weight) && Reduces(leaf, Weights(roots, weight), Cost(leaf, depth));
    var i :| 0 <= i < |roots| && roots[i] == a;
    var j :| 0 <= j < |roots| && roots[j] == b;
    var w, v := Weights(roots, weight), AddWeights(weight[a], weight[b]);
    PairSmallest(weight, active, roots, i, j);
    ReducesMore(leaf, w, Cost(leaf, depth), i, j);
    AddWeightsParts(weight[a], weight[b]);
    ListingMerged(roots, active, weight, i, j, z, v);
    CostMerged(leaf, root, depth, a, b, n);
    assert leaf[..n] == leaf && depth[..n] == depth && MergedDepth(root, depth, a, b)[..n] == MergedDepth(root, depth, a, b);
  }

  lemma PairSmallest(weight: seq<int>, active: set<int>, roots: seq<int>, i: nat, j: nat)
    requires Listing(roots, active, weight) && i < |roots| && j < |roots| && Lightest(weight, active, roots[i], roots[j])
    ensures Smallest(Weights(roots, weight), i, j)
  {
    var w := Weights(roots, weight);
    forall x | 0 <= x < |w| && x != i ensures w[j] <= w[x] { assert roots[x] in roots; }
  }

  /** With one tree left, no code costs less than its depths do. */
  lemma GreedyEnds(weight: seq<int>, x: int, leaf: seq<int>, depth: seq<int>)
    requires Greedy(weight, {x}, leaf, depth) && 0 <= x < |weight| && weight[x] >= 0
    ensures Optimal(leaf, depth)
  {
    hide Reduces, Cost, AtLeast;
    var roots: seq<int> :| Listing(roots, {x}, weight) && Reduces(leaf, Weights(roots, weight), Cost(leaf, depth));
    assert Elements(roots) == {x};
    DistinctCount(roots);
    assert Weights(roots, weight) == [WeightOf(weight[x])] by { assert roots[0] in roots; }
    ReducedToOne(leaf, WeightOf(weight[x]), Cost(leaf, depth));
  }
}
