/**
 * The forest BZ2_hbMakeCodeLengths builds, seen from its leaves: for each leaf the root it currently
 * hangs under and its distance from that root. Merging two roots keeps every invariant the length
 * computation needs (libc/huffman.c:82-147).
 */
module HuffmanTree {
  import opened Words

  const KRAFT_BITS := 64

  // ---- sums over the leaves of one root ----

  ghost function Sum(f: seq<int>, root: seq<int>, r: int, k: nat): int
    requires k <= |f| && k <= |root|
  {
    if k == 0 then 0 else Sum(f, root, r, k - 1) + (if root[k - 1] == r then f[k - 1] else 0)
  }

  ghost function Total(f: seq<int>, k: nat): int
    requires k <= |f|
  {
    if k == 0 then 0 else Total(f, k - 1) + f[k - 1]
  }

  lemma {:induction false} SumBounds(f: seq<int>, root: seq<int>, r: int, k: nat)
    requires k <= |f| && k <= |root| && forall i :: 0 <= i < k ==> f[i] >= 0
    ensures 0 <= Sum(f, root, r, k) <= Total(f, k)
    ensures (forall i :: 0 <= i < k ==> root[i] == r) ==> Sum(f, root, r, k) == Total(f, k)
  {
    if k > 0 { SumBounds(f, root, r, k - 1); }
  }

  ghost function MergedRoot(root: seq<int>, a: int, b: int, z: int): (m: seq<int>)
    ensures |m| == |root| && forall i :: 0 <= i < |root| ==> m[i] == if root[i] == a || root[i] == b then z else root[i]
  {
    seq(|root|, i requires 0 <= i < |root| => if root[i] == a || root[i] == b then z else root[i])
  }

  /** The new root sums both parts; c is how much each merged summand shrank (1 or 2). */
  lemma {:induction false} SumMerged(f: seq<int>, f': seq<int>, root: seq<int>, a: int, b: int, z: int, c: int, k: nat)
    requires k <= |f| == |f'| == |root| && a != b
    requires forall i :: 0 <= i < k ==> root[i] != z
    requires forall i :: 0 <= i < k && (root[i] == a || root[i] == b) ==> c * f'[i] == f[i]
    ensures c * Sum(f', MergedRoot(root, a, b, z), z, k) == Sum(f, root, a, k) + Sum(f, root, b, k)
  {
    if k > 0 {
      SumMerged(f, f', root, a, b, z, c, k - 1);
      var s := Sum(f', MergedRoot(root, a, b, z), z, k - 1);
      if root[k - 1] == a || root[k - 1] == b { assert c * (s + f'[k - 1]) == c * s + c * f'[k - 1]; }
    }
  }

  lemma {:induction false} SumElsewhere(f: seq<int>, f': seq<int>, root: seq<int>, a: int, b: int, z: int, r: int, k: nat)
    requires k <= |f| == |f'| == |root| && r != a && r != b && r != z
    requires forall i :: 0 <= i < k && root[i] == r ==> f'[i] == f[i]
    ensures Sum(f', MergedRoot(root, a, b, z), r, k) == Sum(f, root, r, k)
  {
    if k > 0 { SumElsewhere(f, f', root, a, b, z, r, k - 1); }
  }

  // ---- parent links ----

  ghost predicate Reaches(parent: seq<int>, i: int, d: nat, r: int)
    decreases d
  {
    && 0 <= i < |parent|
    && if d == 0 then i == r else parent[i] >= 0 && Reaches(parent, parent[i], d - 1, r)
  }

  /** Hanging root a under z lengthens every path that ended at a, and no other. */
  lemma {:induction false} ReachesLonger(parent: seq<int>, parent': seq<int>, i: int, d: nat, r: int, z: int)
    requires Reaches(parent, i, d, r) && 0 <= z < |parent| == |parent'|
    requires forall k :: 0 <= k < |parent| && parent[k] >= 0 ==> parent'[k] == parent[k]
    ensures Reaches(parent', i, d, r)
    ensures 0 <= r < |parent| && parent'[r] == z ==> Reaches(parent', i, d + 1, z)
    decreases d
  {
    if d > 0 {
      ReachesLonger(parent, parent', parent[i], d - 1, r, z);
    } else {
      assert parent'[r] == z ==> Reaches(parent', z, 0, z);
    }
  }

  // ---- the Fibonacci bound on depth ----

  ghost function Fib(d: nat): (g: nat)
    ensures g >= 1
  {
    if d == 0 then 1 else if d == 1 then 2 else Fib(d - 1) + Fib(d - 2)
  }

  lemma {:induction false} FibMonotone(d: nat, e: nat)
    requires d <= e
    ensures Fib(d) <= Fib(e)
    decreases e
  {
    if d < e { FibMonotone(d, e - 1); }
  }

  lemma FibLarge()
    ensures Fib(33) > 0x80_0000
  {
    assert Fib(8) == 55 && Fib(9) == 89;
    assert Fib(16) == 2584 && Fib(17) == 4181;
    assert Fib(24) == 121393 && Fib(25) == 196418;
    assert Fib(32) == 5702887 && Fib(33) == 9227465;
  }

  // ---- packed weights: 24 bits of weight over 8 bits of depth ----

  function WeightOf(x: int): int { x / 256 }

  function DepthOf(x: int): (d: nat)
    ensures d < 256
  {
    x % 256
  }

  function Max(a: int, b: int): int { if a > b then a else b }

  /** ADDWEIGHTS */
  function AddWeights(x: int, y: int): int
    requires x >= 0 && y >= 0
  {
    Or(WeightOf(x) * 256 + WeightOf(y) * 256, 1 + Max(DepthOf(x), DepthOf(y)))
  }

  lemma AddWeightsParts(x: int, y: int)
    requires x >= 0 && y >= 0 && DepthOf(x) < 255 && DepthOf(y) < 255
    ensures WeightOf(AddWeights(x, y)) == WeightOf(x) + WeightOf(y)
    ensures DepthOf(AddWeights(x, y)) == 1 + Max(DepthOf(x), DepthOf(y))
    ensures x >= 256 ==> AddWeights(x, y) >= 256
  {
    hide Or, Pow2, Max;
    Pow2Values();
    var q, d := WeightOf(x) + WeightOf(y), 1 + Max(DepthOf(x), DepthOf(y));
    assert 0 <= d < 256 by { MaxBelow(DepthOf(x), DepthOf(y)); }
    OrIntoClear(q, d, 8);
    assert AddWeights(x, y) == q * 256 + d;
    Packing(q, d);
  }

  lemma MaxBelow(a: nat, b: nat)
    requires a < 255 && b < 255
    ensures 0 <= Max(a, b) < 255
  {
  }

  lemma Packing(q: nat, d: nat)
    requires d < 256
    ensures WeightOf(q * 256 + d) == q && DepthOf(q * 256 + d) == d
  {
  }

  // ---- the forest ----

  ghost function MergedDepth(root: seq<int>, depth: seq<int>, a: int, b: int): (m: seq<int>)
    requires |root| == |depth|
    ensures |m| == |root| && forall i :: 0 <= i < |root| ==> m[i] == depth[i] + (if root[i] == a || root[i] == b then 1 else 0)
  {
    seq(|root|, i requires 0 <= i < |root| => depth[i] + (if root[i] == a || root[i] == b then 1 else 0))
  }

  ghost function MergedRoots(active: set<int>, a: int, b: int, z: int): set<int> {
    active - {a, b} + {z}
  }

  /** Leaf i (node i+1) reaches an active root in depth[i] parent steps; other nodes have later parents. */
  ghost predicate Linked(n: nat, parent: seq<int>, nNodes: nat, active: set<int>, root: seq<int>, depth: seq<int>) {
    && n <= nNodes < |parent| && |root| == |depth| == n
    && (forall i :: 0 <= i < n ==> root[i] in active && depth[i] >= 0 && Reaches(parent, i + 1, depth[i], root[i]))
    && (forall r :: r in active ==> 1 <= r <= nNodes && parent[r] == -1)
    && (forall k :: 1 <= k <= nNodes && k !in active ==> k < parent[k] <= nNodes)
  }

  lemma MergeLinked(n: nat, parent: seq<int>, nNodes: nat, active: set<int>, root: seq<int>, depth: seq<int>, a: int, b: int)
    requires Linked(n, parent, nNodes, active, root, depth) && a in active && b in active && a != b && nNodes + 1 < |parent|
    requires parent[0] < 0
    ensures var z := nNodes + 1;
            Linked(n, parent[z := -1][a := z][b := z], z, MergedRoots(active, a, b, z), MergedRoot(root, a, b, z), MergedDepth(root, depth, a, b))
  {
    var z := nNodes + 1;
    var parent' := parent[z := -1][a := z][b := z];
    var cut := parent[z := -1];
    var root', depth' := MergedRoot(root, a, b, z), MergedDepth(root, depth, a, b);
    forall i | 0 <= i < n
      ensures root'[i] in MergedRoots(active, a, b, z) && Reaches(parent', i + 1, depth'[i], root'[i])
    {
      ReachesInside(parent, cut, nNodes, active, i + 1, depth[i], root[i]);
      ReachesLonger(cut, parent', i + 1, depth[i], root[i], z);
    }
  }

  /** A path inside the nodes built so far does not notice later cells. */
  lemma {:induction false} ReachesInside(parent: seq<int>, cut: seq<int>, nNodes: nat, active: set<int>, i: int, d: nat, r: int)
    requires Reaches(parent, i, d, r) && 1 <= i <= nNodes < |parent| == |cut|
    requires forall k :: 1 <= k <= nNodes ==> cut[k] == parent[k] && (k in active ==> parent[k] == -1) && (k !in active ==> k < parent[k] <= nNodes)
    ensures Reaches(cut, i, d, r)
    decreases d
  {
    if d > 0 { ReachesInside(parent, cut, nNodes, active, parent[i], d - 1, r); }
  }

  /** A root's weight is the sum of its leaves' weights; its depth field bounds their depths. */
  ghost predicate Weighed(n: nat, weight: seq<int>, active: set<int>, leaf: seq<int>, root: seq<int>, depth: seq<int>) {
    && |leaf| == |root| == |depth| == n
    && (forall i :: 0 <= i < n ==> leaf[i] >= 1 && root[i] in active && 0 <= root[i] < |weight| && depth[i] <= DepthOf(weight[root[i]]))
    && (forall r :: r in active ==> 0 < r < |weight| && weight[r] >= 256 && WeightOf(weight[r]) == Sum(leaf, root, r, n))
  }

  lemma MergeWeighed(n: nat, weight: seq<int>, active: set<int>, leaf: seq<int>, root: seq<int>, depth: seq<int>, a: int, b: int, z: int)
    requires Weighed(n, weight, active, leaf, root, depth) && a in active && b in active && a != b
    requires z !in active && 0 < z < |weight| && DepthOf(weight[a]) < 255 && DepthOf(weight[b]) < 255
    ensures Weighed(n, weight[z := AddWeights(weight[a], weight[b])], MergedRoots(active, a, b, z), leaf,
                    MergedRoot(root, a, b, z), MergedDepth(root, depth, a, b))
  {
    AddWeightsParts(weight[a], weight[b]);
    hide DepthOf, AddWeights;
    SumMerged(leaf, leaf, root, a, b, z, 1, n);
    var weight' := weight[z := AddWeights(weight[a], weight[b])];
    forall r | r in MergedRoots(active, a, b, z)
      ensures 0 < r < |weight| && weight'[r] >= 256 && WeightOf(weight'[r]) == Sum(leaf, MergedRoot(root, a, b, z), r, n)
    {
      if r != z { SumElsewhere(leaf, leaf, root, a, b, z, r, n); }
    }
  }

  /** Some leaf is as deep as the depth field of its root says. */
  ghost predicate Attained(n: nat, weight: seq<int>, active: set<int>, root: seq<int>, depth: seq<int>) {
    && |root| == |depth| == n && (forall r :: r in active ==> 0 <= r < |weight|)
    && forall r :: r in active ==> exists i :: 0 <= i < n && root[i] == r && depth[i] == DepthOf(weight[r])
  }

  lemma MergeAttained(n: nat, weight: seq<int>, active: set<int>, root: seq<int>, depth: seq<int>, a: int, b: int, z: int)
    requires Attained(n, weight, active, root, depth) && a in active && b in active && weight[a] >= 0 && weight[b] >= 0
    requires z !in active && 0 <= z < |weight| && DepthOf(weight[a]) < 255 && DepthOf(weight[b]) < 255
    ensures Attained(n, weight[z := AddWeights(weight[a], weight[b])], MergedRoots(active, a, b, z),
                     MergedRoot(root, a, b, z), MergedDepth(root, depth, a, b))
  {
    AddWeightsParts(weight[a], weight[b]);
    hide DepthOf, AddWeights;
    var weight' := weight[z := AddWeights(weight[a], weight[b])];
    var root', depth' := MergedRoot(root, a, b, z), MergedDepth(root, depth, a, b);
    forall r | r in MergedRoots(active, a, b, z)
      ensures exists i :: 0 <= i < n && root'[i] == r && depth'[i] == DepthOf(weight'[r])
    {
      var from := if r != z then r else if DepthOf(weight[a]) >= DepthOf(weight[b]) then a else b;
      var i :| 0 <= i < n && root[i] == from && depth[i] == DepthOf(weight[from]);
      assert root'[i] == r && depth'[i] == DepthOf(weight'[r]);
    }
  }

  /** 2^(KRAFT_BITS - depth) for each leaf. */
  ghost function Shares(depth: seq<int>): (s: seq<int>)
    requires forall i :: 0 <= i < |depth| ==> 0 <= depth[i] <= KRAFT_BITS
    ensures |s| == |depth| && forall i :: 0 <= i < |depth| ==> s[i] == Pow2(KRAFT_BITS - depth[i])
  {
    seq(|depth|, i requires 0 <= i < |depth| => Pow2(KRAFT_BITS - depth[i]))
  }

  ghost predicate Shallow(depth: seq<int>) {
    forall i :: 0 <= i < |depth| ==> 0 <= depth[i] < KRAFT_BITS
  }

  /** Under every root the leaves' shares add up to the whole: each tree is full. */
  ghost predicate Full(n: nat, active: set<int>, root: seq<int>, depth: seq<int>) {
    && |root| == |depth| == n && Shallow(depth)
    && (forall i :: 0 <= i < n ==> root[i] in active)
    && forall r :: r in active ==> Sum(Shares(depth), root, r, n) == Pow2(KRAFT_BITS)
  }

  lemma MergeFull(n: nat, active: set<int>, root: seq<int>, depth: seq<int>, a: int, b: int, z: int)
    requires Full(n, active, root, depth) && a in active && b in active && a != b && z !in active
    requires Shallow(MergedDepth(root, depth, a, b))
    ensures Full(n, MergedRoots(active, a, b, z), MergedRoot(root, a, b, z), MergedDepth(root, depth, a, b))
  {
    hide Pow2, Sum, Shares, MergedRoot, MergedDepth;
    var root', depth' := MergedRoot(root, a, b, z), MergedDepth(root, depth, a, b);
    forall i | 0 <= i < n && (root[i] == a || root[i] == b)
      ensures 2 * Shares(depth')[i] == Shares(depth)[i]
    {
      HalfShare(depth[i]);
    }
    SumMerged(Shares(depth), Shares(depth'), root, a, b, z, 2, n);
    forall r | r in MergedRoots(active, a, b, z)
      ensures Sum(Shares(depth'), root', r, n) == Pow2(KRAFT_BITS)
    {
      if r != z { SumElsewhere(Shares(depth), Shares(depth'), root, a, b, z, r, n); }
    }
  }

  lemma HalfShare(d: nat)
    requires d < KRAFT_BITS
    ensures Pow2(KRAFT_BITS - d) == 2 * Pow2(KRAFT_BITS - (d + 1))
  {
  }

  /** a and b are the two lightest roots. */
  ghost predicate Lightest(weight: seq<int>, active: set<int>, a: int, b: int) {
    && (forall r :: r in active ==> 0 <= r < |weight| && weight[r] >= 256)
    && a in active && b in active && a != b
    && WeightOf(weight[a]) <= WeightOf(weight[b])
    && forall r :: r in active && r != a ==> WeightOf(weight[b]) <= WeightOf(weight[r])
  }

  /** Deep trees are heavy: depth d needs weight Fib(d), and every other root at least Fib(d-1). */
  ghost predicate Balanced(weight: seq<int>, active: set<int>) {
    && (forall r :: r in active ==> 0 <= r < |weight| && weight[r] >= 256 && WeightOf(weight[r]) >= Fib(DepthOf(weight[r])))
    && (forall r, s :: r in active && s in active && DepthOf(weight[r]) > 0 ==> WeightOf(weight[s]) >= Fib(DepthOf(weight[r]) - 1))
  }

  lemma MergeBalanced(weight: seq<int>, active: set<int>, a: int, b: int, z: int)
    requires Balanced(weight, active) && Lightest(weight, active, a, b) && z !in active && 0 <= z < |weight|
    requires DepthOf(weight[a]) < 255 && DepthOf(weight[b]) < 255
    ensures Balanced(weight[z := AddWeights(weight[a], weight[b])], MergedRoots(active, a, b, z))
  {
    hide WeightOf, DepthOf, AddWeights, Fib;
    AddWeightsParts(weight[a], weight[b]);
    var da, db := DepthOf(weight[a]), DepthOf(weight[b]);
    var wa, wb := WeightOf(weight[a]), WeightOf(weight[b]);
    assert da > 0 ==> wb >= Fib(da - 1);
    assert db > 0 ==> wa >= Fib(db - 1);
    FibMerge(wa, wb, da, db);
    var w := weight[z := AddWeights(weight[a], weight[b])];
    forall r | r in MergedRoots(active, a, b, z)
      ensures WeightOf(w[r]) >= Fib(DepthOf(w[r]))
    {
    }
    forall r, s | r in MergedRoots(active, a, b, z) && s in MergedRoots(active, a, b, z) && DepthOf(w[r]) > 0
      ensures WeightOf(w[s]) >= Fib(DepthOf(w[r]) - 1)
    {
      if r == z {
        assert s != z ==> WeightOf(weight[s]) >= wb;
      } else if s == z {
        assert WeightOf(weight[a]) >= Fib(DepthOf(weight[r]) - 1);
      }
    }
  }

  lemma FibMerge(wa: nat, wb: nat, da: nat, db: nat)
    requires wa >= Fib(da) && wb >= Fib(db) && wa <= wb
    requires (da > 0 ==> wb >= Fib(da - 1)) && (db > 0 ==> wa >= Fib(db - 1))
    ensures wa + wb >= Fib(1 + Max(da, db)) && wb >= Fib(Max(da, db))
  {
    var d := 1 + Max(da, db);
    assert Fib(d) == if d == 1 then 2 else Fib(d - 1) + Fib(d - 2);
  }

  /** No tree of an admissible total weight is deeper than 32, so the depth field never overflows. */
  lemma DepthFits(w: nat, d: nat)
    requires w >= Fib(d) && w <= 0x80_0000
    ensures d <= 32
  {
    FibLarge();
    hide Fib;
    if d > 32 { FibMonotone(33, d); }
  }

  // ---- leaf weights 1 and 2 ----

  ghost function Pow3(n: nat): (r: nat)
    ensures r >= 1
  {
    if n == 0 then 1 else 3 * Pow3(n - 1)
  }

  /** Once all weights are within a factor two, each level of a tree multiplies its weight by 3/2. */
  ghost predicate Tight(weight: seq<int>, active: set<int>) {
    && (forall r :: r in active ==> 0 <= r < |weight| && weight[r] >= 256)
    && (forall r, s :: r in active && s in active ==> WeightOf(weight[r]) <= 2 * WeightOf(weight[s]))
    && (forall r :: r in active ==> Pow2(DepthOf(weight[r])) * WeightOf(weight[r]) >= Pow3(DepthOf(weight[r])))
  }

  lemma HeavierByHalf(wa: nat, wb: nat, d: nat, w: nat)
    requires w == wa || w == wb
    requires wa <= 2 * wb && wb <= 2 * wa && Pow2(d) * w >= Pow3(d)
    ensures Pow2(d + 1) * (wa + wb) >= Pow3(d + 1)
  {
    var p := Pow2(d);
    assert 2 * (wa + wb) >= 3 * w;
    Scale(3 * w, 2 * (wa + wb), p);
    assert (3 * w) * p == 3 * (p * w);
    assert (2 * (wa + wb)) * p == (2 * p) * (wa + wb);
  }

  lemma MergeTight(weight: seq<int>, active: set<int>, a: int, b: int, z: int)
    requires Tight(weight, active) && Lightest(weight, active, a, b) && z !in active && 0 <= z < |weight|
    requires DepthOf(weight[a]) < 255 && DepthOf(weight[b]) < 255
    ensures Tight(weight[z := AddWeights(weight[a], weight[b])], MergedRoots(active, a, b, z))
  {
    AddWeightsParts(weight[a], weight[b]);
    hide WeightOf, DepthOf, AddWeights;
    var da, db := DepthOf(weight[a]), DepthOf(weight[b]);
    var wa, wb := WeightOf(weight[a]), WeightOf(weight[b]);
    if da >= db { HeavierByHalf(wa, wb, da, wa); } else { HeavierByHalf(wa, wb, db, wb); }
  }

  lemma {:induction false} TightShallow(w: nat, d: nat)
    requires Pow2(d) * w >= Pow3(d) && w <= 516
    ensures d <= 15
  {
    if d > 15 {
      PowersApart(d);
      Scale(w, 516, Pow2(d));
      assert false;
    }
  }

  lemma {:induction false} PowersApart(d: nat)
    requires d >= 16
    ensures Pow3(d) > 516 * Pow2(d)
  {
    if d == 16 {
      assert Pow3(8) == 6561;
      assert Pow3(16) == 43046721;
      Pow2Values();
    } else {
      PowersApart(d - 1);
    }
  }
}
